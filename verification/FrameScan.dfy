/** Scanning the CRYPTO frames out of a decrypted Initial payload (sections 12.4 and 19 of RFC 9000). */
module FrameScan {
  import opened Bytes
  import opened QuicVarInt

  /** A CRYPTO frame as the proxy keeps it. */
  datatype CryptoFrame = CryptoFrame(offset: nat, data: seq<Byte>)

  /** Where a CRYPTO frame's bytes lie in the payload. */
  datatype Piece = Piece(offset: nat, start: nat, len: nat) {
    predicate InBounds(data: seq<Byte>) {
      start + len <= |data|
    }

    function Frame(data: seq<Byte>): CryptoFrame
      requires InBounds(data)
    {
      CryptoFrame(offset, data[start..start + len])
    }
  }

  // ---------------------------------------------------------------------------------------
  // The scan as a function of the payload and the current offset
  // ---------------------------------------------------------------------------------------

  /** The offset behind `k` consecutive integers, or None when one of them cannot be read. */
  function SkipVarInts(data: seq<Byte>, at: nat, k: nat): (r: Option<nat>)
    requires at <= |data|
    ensures r.Some? ==> at <= r.value <= |data|
    decreases k
  {
    if k == 0 then Some(at)
    else
      var n := ReadVarInt(data[at..]);
      if n.None? then None else SkipVarInts(data, at + n.value.size, k - 1)
  }

  function SkipZeros(data: seq<Byte>, at: nat): (r: nat)
    requires at <= |data|
    ensures at <= r <= |data|
    decreases |data| - at
  {
    if at < |data| && data[at] == 0 then SkipZeros(data, at + 1) else at
  }

  /** The offset behind an ACK frame whose type has been read. */
  function SkipAck(data: seq<Byte>, at: nat, ecn: bool): (r: Option<nat>)
    requires at <= |data|
    ensures r.Some? ==> at <= r.value <= |data|
  {
    var head := SkipVarInts(data, at, 2);
    if head.None? then None else
    var count := ReadVarInt(data[head.value..]);
    if count.None? then None else
    var first := SkipVarInts(data, head.value + count.value.size, 1);
    if first.None? then None else
    var ranges := SkipVarInts(data, first.value, 2 * count.value.value);
    if ranges.None? then None else
    if ecn then SkipVarInts(data, ranges.value, 3) else ranges
  }

  /** One turn of the scan: stop, or go on at `next`, perhaps with a CRYPTO frame found on the way. */
  datatype Turn = Stop | Go(piece: Option<Piece>, next: nat)

  /** A CRYPTO frame whose type has been read. One that is not whole is dropped and scanning goes on. */
  function ScanCrypto(data: seq<Byte>, at: nat): (r: Turn)
    requires at <= |data|
    ensures r.Go? && at <= r.next <= |data|
    ensures r.piece.Some? ==> at <= r.piece.value.start && r.piece.value.start + r.piece.value.len == r.next
  {
    var off := ReadVarInt(data[at..]);
    if off.None? then Go(None, at) else
    var at1 := at + off.value.size;
    var len := ReadVarInt(data[at1..]);
    if len.None? then Go(None, at1) else
    var at2 := at1 + len.value.size;
    var end := at2 + len.value.value;
    if end > |data| then Go(None, at2)
    else Go(Some(Piece(off.value.value, at2, len.value.value)), end)
  }

  /** The frame that starts at `at`. */
  function ScanFrame(data: seq<Byte>, at: nat): (r: Turn)
    requires at <= |data|
    ensures r.Go? ==> at < r.next <= |data|
    ensures r.Go? && r.piece.Some? ==>
              at < r.piece.value.start && r.piece.value.start + r.piece.value.len == r.next
  {
    var t := ReadVarInt(data[at..]);
    if t.None? then Stop else
    var body := at + t.value.size;
    match t.value.value
    case 0 => Go(None, SkipZeros(data, body))
    case 1 => Go(None, body)
    case 2 => AckTurn(SkipAck(data, body, false))
    case 3 => AckTurn(SkipAck(data, body, true))
    case 6 => ScanCrypto(data, body)
    case _ => Stop
  }

  function AckTurn(end: Option<nat>): Turn {
    if end.None? then Stop else Go(None, end.value)
  }

  /** The CRYPTO frames from `at` on, in order of appearance. */
  function FramesFrom(data: seq<Byte>, at: nat): seq<CryptoFrame>
    requires at <= |data|
    decreases |data| - at
  {
    match ScanFrame(data, at)
    case Stop => []
    case Go(piece, next) => (if piece.Some? then [piece.value.Frame(data)] else []) + FramesFrom(data, next)
  }

  /** Where those frames lie. */
  function PiecesFrom(data: seq<Byte>, at: nat): seq<Piece>
    requires at <= |data|
    decreases |data| - at
  {
    match ScanFrame(data, at)
    case Stop => []
    case Go(piece, next) => (if piece.Some? then [piece.value] else []) + PiecesFrom(data, next)
  }

  // ---------------------------------------------------------------------------------------
  // The loop of the proxy
  // ---------------------------------------------------------------------------------------

  method ExtractCryptoFrames(data: seq<Byte>) returns (frames: seq<CryptoFrame>)
    ensures frames == FramesFrom(data, 0)
  {
    hide ReadVarInt, ScanFrame;
    frames := [];
    var offset := 0;
    while offset < |data|
      invariant 0 <= offset <= |data|
      invariant FramesFrom(data, 0) == frames + FramesFrom(data, offset)
      decreases |data| - offset
    {
      var stop, frame, next := ReadFrame(data, offset);
      if stop {
        break;
      }
      if frame.Some? {
        frames := frames + [frame.value];
      }
      offset := next;
    }
  }

  /** The body of the loop: the switch over the frame type. */
  method ReadFrame(data: seq<Byte>, at: nat) returns (stop: bool, frame: Option<CryptoFrame>, offset: nat)
    requires at <= |data|
    ensures stop == ScanFrame(data, at).Stop?
    ensures !stop ==> offset == ScanFrame(data, at).next
    ensures !stop ==> frame == match ScanFrame(data, at).piece
                               case None => None
                               case Some(p) => Some(p.Frame(data))
  {
    hide ReadVarInt, SkipAck, ScanCrypto, SkipZeros;
    stop, frame, offset := false, None, at;
    var t := ReadVarInt(data[at..]);
    if t.None? {
      stop := true;
      return;
    }
    offset := at + t.value.size;
    var frameType := t.value.value;
    if frameType == 0 {
      offset := SkipPadding(data, offset);
    } else if frameType == 1 {
    } else if frameType == 2 || frameType == 3 {
      var end := AckEnd(data, offset, frameType == 3);
      if end.None? {
        stop := true;
      } else {
        offset := end.value;
      }
    } else if frameType == 6 {
      frame, offset := ReadCrypto(data, offset);
    } else {
      stop := true;
    }
  }

  /** The PADDING branch of the loop. */
  method SkipPadding(data: seq<Byte>, at: nat) returns (offset: nat)
    requires at <= |data|
    ensures offset == SkipZeros(data, at)
  {
    offset := at;
    while offset < |data| && data[offset] == 0
      invariant at <= offset <= |data|
      invariant SkipZeros(data, at) == SkipZeros(data, offset)
    {
      offset := offset + 1;
    }
  }

  /** The CRYPTO branch of the loop: a frame that is not whole leaves only this branch. */
  method ReadCrypto(data: seq<Byte>, at: nat) returns (frame: Option<CryptoFrame>, offset: nat)
    requires at <= |data|
    ensures offset == ScanCrypto(data, at).next
    ensures frame == match ScanCrypto(data, at).piece
                     case None => None
                     case Some(p) => Some(p.Frame(data))
  {
    hide ReadVarInt;
    offset := at;
    var off := ReadVarInt(data[offset..]);
    if off.None? { return None, offset; }
    offset := offset + off.value.size;
    var length := ReadVarInt(data[offset..]);
    if length.None? { return None, offset; }
    offset := offset + length.value.size;
    if offset + length.value.value > |data| { return None, offset; }
    frame := Some(CryptoFrame(off.value.value, data[offset..offset + length.value.value]));
    offset := offset + length.value.value;
  }

  /** The ACK branch of the loop; None stands for its early returns. */
  method AckEnd(data: seq<Byte>, at: nat, ecn: bool) returns (end: Option<nat>)
    requires at <= |data|
    ensures end == SkipAck(data, at, ecn)
  {
    hide ReadVarInt, SkipVarInts;
    var head := SkipIntegers(data, at, 2);  // Largest Acknowledged, ACK Delay
    if head.None? { return None; }
    var rangeCount := ReadVarInt(data[head.value..]);
    if rangeCount.None? { return None; }
    var first := SkipIntegers(data, head.value + rangeCount.value.size, 1);
    if first.None? { return None; }
    end := AckRanges(data, first.value, rangeCount.value.value);
    if end.Some? && ecn {
      end := SkipIntegers(data, end.value, 3);
    }
  }

  method AckRanges(data: seq<Byte>, at: nat, rangeCount: nat) returns (end: Option<nat>)
    requires at <= |data|
    ensures end == SkipVarInts(data, at, 2 * rangeCount)
  {
    var offset := at;
    var i := 0;
    while i < rangeCount
      invariant 0 <= i <= rangeCount
      invariant at <= offset <= |data|
      invariant SkipVarInts(data, at, 2 * rangeCount) == SkipVarInts(data, offset, 2 * (rangeCount - i))
    {
      var gap := ReadVarInt(data[offset..]);
      if gap.None? { return None; }
      offset := offset + gap.value.size;
      var len := ReadVarInt(data[offset..]);
      if len.None? { return None; }
      offset := offset + len.value.size;
      i := i + 1;
    }
    end := Some(offset);
  }

  method SkipIntegers(data: seq<Byte>, at: nat, k: nat) returns (end: Option<nat>)
    requires at <= |data|
    ensures end == SkipVarInts(data, at, k)
  {
    var offset := at;
    var i := 0;
    while i < k
      invariant 0 <= i <= k
      invariant at <= offset <= |data|
      invariant SkipVarInts(data, at, k) == SkipVarInts(data, offset, k - i)
    {
      var n := ReadVarInt(data[offset..]);
      if n.None? { return None; }
      offset := offset + n.value.size;
      i := i + 1;
    }
    end := Some(offset);
  }
}
