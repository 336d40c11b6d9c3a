/** How the size of a set changes when one element may enter or leave. */
module Counting {

  predicate SameBut<T(==)>(before: set<T>, after: set<T>, t: T) {
    before - {t} == after - {t}
  }

  lemma SizeAfter<T>(before: set<T>, after: set<T>, t: T)
    requires SameBut(before, after, t)
    ensures |after| == |before| - (if t in before then 1 else 0) + (if t in after then 1 else 0)
  {
    var rest := before - {t};
    if t in before {
      assert before == rest + {t};
    } else {
      assert before == rest;
    }
    if t in after {
      assert after == rest + {t};
    } else {
      assert after == rest;
    }
  }
}
