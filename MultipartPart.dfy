/**
  The multipart part locator of the POST ingestion path: `find_content_part`
  scans one received chunk for `--boundary` delimiter lines, and the slice
  arithmetic of `got_chunk_handler` picks the bytes that are pushed into the
  endpoint.

  The chunk is a byte sequence whose first byte is `start` and whose length is
  `end - start`; pointers into it are indices.  The locator is modelled as the
  code is written, including its departures from the delimiter syntax of
  section 5.1.1 of RFC 2046 and the reads it makes outside the chunk, which
  are `Fault` outcomes here.
*/
module MultipartPart {
  import opened Wrappers

  type byte = bv8

  const DASH: byte := 0x2D
  const CR: byte := 0x0D
  const LF: byte := 0x0A
  const NUL: byte := 0x00

  /** Undefined behaviour reached by the locator or the slice arithmetic. */
  datatype Fault =
    | ReadBeforeChunk     // `b[-2]` read with `b == start + 1`
    | PointerBeforeChunk  // `content_end = b - 2` formed with `b == start`
    | ReadPastChunk       // a byte at or after `end` read by `c[1..3]` or by the over-long `memchr`
    | NullDereference     // a NULL pointer dereferenced (memchr found nothing, or a handler id is missing)
    | NegativeLength      // `content_end` before `content_start`: a negative buffer length

  /** The two out-parameters of the locator; `None` is NULL. */
  datatype Located = Located(contentStart: Option<nat>, contentEnd: Option<nat>)

  const Unset: Located := Located(None, None)

  predicate NulFree(s: seq<byte>)
  {
    forall i :: 0 <= i < |s| ==> s[i] != NUL
  }

  /** `memchr(start + from, x, end - (start + from))`: the first index at or after `from` holding `x`. */
  function FindByte(s: seq<byte>, x: byte, from: nat): (r: Option<nat>)
    ensures r.Some? ==> from <= r.value < |s| && s[r.value] == x
    ensures r.Some? ==> forall k :: from <= k < r.value ==> s[k] != x
    ensures r.None? ==> forall k :: from <= k < |s| ==> s[k] != x
    decreases |s| - from
  {
    if from >= |s| then None
    else if s[from] == x then Some(from)
    else FindByte(s, x, from + 1)
  }

  /** `FindByte` finds exactly the first occurrence: a reference characterisation. */
  lemma {:induction false} FindByteIsFirst(s: seq<byte>, x: byte, from: nat, k: nat)
    requires from <= k < |s| && s[k] == x
    requires forall i :: from <= i < k ==> s[i] != x
    ensures FindByte(s, x, from) == Some(k)
    decreases k - from
  {
    if from < k {
      FindByteIsFirst(s, x, from + 1, k);
    }
  }

  /** The C string at index `k`: it ends at the chunk's first NUL byte from `k`, or at the chunk's end. */
  function CText(s: seq<byte>, k: nat): (t: seq<byte>)
    requires k <= |s|
    ensures k + |t| <= |s| && t == s[k..k + |t|]
    ensures forall i :: 0 <= i < |t| ==> t[i] != NUL
    ensures k + |t| == |s| || s[k + |t|] == NUL
  {
    match FindByte(s, NUL, k)
    case Some(z) => s[k..z]
    case None => s[k..]
  }

  /** `g_str_has_prefix(str, prefix)`: `str` begins with `prefix`. */
  predicate HasPrefix(str: seq<byte>, prefix: seq<byte>)
  {
    |prefix| <= |str| && str[..|prefix|] == prefix
  }

  /** The loop guard `b + boundary_len + 4 < end`. */
  predicate InScanWindow(s: seq<byte>, boundaryLen: nat, b: nat)
  {
    b + boundaryLen + 4 < |s|
  }

  /**
    The first test of the loop body: a candidate is passed over unless `b[1]` is
    '-' and `g_str_has_prefix (boundary, b + 2)` is false -- the arguments are
    reversed, so it is the text after the dashes that is tested as a prefix of
    the boundary.
  */
  predicate Skipped(s: seq<byte>, bd: seq<byte>, b: nat)
    requires b + 2 <= |s|
  {
    s[b + 1] != DASH || HasPrefix(bd, CText(s, b + 2))
  }

  /** The start-of-line test `b == start || (b[-1] == '\n' && b[-2] == '\r')`. */
  function AtLineStart(s: seq<byte>, b: nat): (r: Result<bool, Fault>)
    requires b < |s|
    ensures r.Failure? <==> b == 1 && s[0] == LF
    ensures r.Success? ==> (r.value <==> b == 0 || (b >= 2 && s[b - 1] == LF && s[b - 2] == CR))
  {
    if b == 0 then Success(true)
    else if s[b - 1] != LF then Success(false)
    else if b < 2 then Failure(ReadBeforeChunk)
    else Success(s[b - 2] == CR)
  }

  /** One pass of the delimiter loop's body on the candidate dash at `b`. */
  function Examine(s: seq<byte>, bd: seq<byte>, b: nat, acc: Located): (r: Result<Located, Fault>)
    requires InScanWindow(s, |bd|, b)
    ensures Skipped(s, bd, b) ==> r == Success(acc)
    ensures r.Failure? ==> (b == 0 && r.error == PointerBeforeChunk) || (b == 1 && r.error == ReadBeforeChunk)
    ensures r.Success? ==> r.value.contentStart == acc.contentStart || r.value.contentStart == Some(b + |bd| + 3)
    ensures r.Success? ==> r.value.contentEnd == acc.contentEnd || (2 <= b && r.value.contentEnd == Some(b - 2))
  {
    var L := |bd|;
    if Skipped(s, bd, b) then Success(acc)
    else
      match AtLineStart(s, b)
      case Failure(f) => Failure(f)
      case Success(atStart) =>
        if !atStart then Success(acc)
        else if s[b + L + 2] == DASH && s[b + L + 3] == DASH then
          if b < 2 then Failure(PointerBeforeChunk) else Success(acc.(contentEnd := Some(b - 2)))
        else if s[b + L + 2] == CR && s[b + L + 3] == LF then
          Success(acc.(contentStart := Some(b + L + 3)))
        else Success(acc)
  }

  /** The delimiter loop from the candidate dash at `b` on, with the out-parameters holding `acc`. */
  function ScanFrom(s: seq<byte>, bd: seq<byte>, b: nat, acc: Located): (r: Result<Located, Fault>)
    ensures !InScanWindow(s, |bd|, b) ==> r == Success(acc)
    ensures r.Failure? ==> r.error == PointerBeforeChunk || r.error == ReadBeforeChunk
    decreases |s| - b
  {
    if !InScanWindow(s, |bd|, b) then Success(acc)
    else
      match Examine(s, bd, b, acc)
      case Failure(f) => Failure(f)
      case Success(next) =>
        match FindByte(s, DASH, b + 2)
        case None => Success(next)
        case Some(b') => ScanFrom(s, bd, b', next)
  }

  /** The delimiter loop from a `memchr` result, which may be NULL. */
  function ScanRest(s: seq<byte>, bd: seq<byte>, b: Option<nat>, acc: Located): (r: Result<Located, Fault>)
  {
    match b
    case None => Success(acc)
    case Some(x) => ScanFrom(s, bd, x, acc)
  }

  /**
    The CR search from the '\r' at `c` on: it looks for CRLFCRLF at `c` and
    otherwise calls `memchr (c + 4, '\r', end - (c + 2))`, which skips the
    three bytes after `c` and may look two bytes past the chunk's end.
  */
  function SeekBlankLine(s: seq<byte>, c: nat): (r: Result<nat, Fault>)
    requires c < |s| && s[c] == CR
    ensures r.Failure? ==> r.error == ReadPastChunk || r.error == NullDereference
    ensures r.Success? ==> c + 4 <= r.value <= |s|
    ensures r.Success? ==> s[r.value - 4] == CR && s[r.value - 3] == LF && s[r.value - 2] == CR && s[r.value - 1] == LF
    decreases |s| - c
  {
    if c + 1 == |s| then Failure(ReadPastChunk)
    else if s[c + 1] == LF && c + 2 == |s| then Failure(ReadPastChunk)
    else if s[c + 1] == LF && s[c + 2] == CR && c + 3 == |s| then Failure(ReadPastChunk)
    else if s[c + 1] == LF && s[c + 2] == CR && s[c + 3] == LF then Success(c + 4)
    else if c + 2 == |s| then Failure(NullDereference)  // memchr over zero bytes gives NULL
    else
      match FindByte(s, CR, c + 4)
      case None => Failure(ReadPastChunk)  // the search ran on into the two bytes after the chunk
      case Some(c') => SeekBlankLine(s, c')
  }

  /** The CR search that moves `content_start` from `p` to past the blank line. */
  function BlankLineAfter(s: seq<byte>, p: nat): (r: Result<nat, Fault>)
    ensures r.Failure? ==> r.error == ReadPastChunk || r.error == NullDereference
    ensures r.Success? ==> p + 4 <= r.value <= |s|
    ensures r.Success? ==> s[r.value - 4] == CR && s[r.value - 3] == LF && s[r.value - 2] == CR && s[r.value - 1] == LF
  {
    match FindByte(s, CR, p)
    case None => Failure(NullDereference)
    case Some(c) => SeekBlankLine(s, c)
  }

  /** `find_content_part (start, end, &content_start, &content_end, boundary)` as a function. */
  function LocatePart(s: seq<byte>, bd: seq<byte>): (r: Result<Located, Fault>)
    ensures FindByte(s, DASH, 0).None? ==> r == Success(Unset)
    ensures r.Failure? ==> r.error != NegativeLength
    ensures r.Success? && r.value.contentStart.Some? ==>
      var q := r.value.contentStart.value;
      4 <= q <= |s| && s[q - 4] == CR && s[q - 3] == LF && s[q - 2] == CR && s[q - 1] == LF
  {
    match ScanRest(s, bd, FindByte(s, DASH, 0), Unset)
    case Failure(f) => Failure(f)
    case Success(loc) =>
      match loc.contentStart
      case None => Success(loc)
      case Some(p) =>
        match BlankLineAfter(s, p)
        case Failure(f) => Failure(f)
        case Success(q) => Success(loc.(contentStart := Some(q)))
  }

  /** `find_content_part`: the delimiter loop, then the CR search when `content_start` is set. */
  method FindContentPart(s: seq<byte>, bd: seq<byte>) returns (r: Result<Located, Fault>)
    ensures r == LocatePart(s, bd)
  {
    var L := |bd|;
    var contentStart: Option<nat> := None;
    var contentEnd: Option<nat> := None;
    var b := FindByte(s, DASH, 0);
    ghost var scanned := ScanRest(s, bd, b, Unset);
    while b.Some? && b.value + L + 4 < |s|
      invariant ScanRest(s, bd, b, Located(contentStart, contentEnd)) == scanned
      decreases if b.Some? then |s| - b.value else 0
    {
      var p := b.value;
      var ex := ExamineCandidate(s, bd, p, Located(contentStart, contentEnd));
      if ex.Failure? {
        return Failure(ex.error);
      }
      contentStart, contentEnd := ex.value.contentStart, ex.value.contentEnd;
      b := FindByte(s, DASH, p + 2);
    }
    assert scanned == Success(Located(contentStart, contentEnd));
    if contentStart.Some? {
      var c := FindByte(s, CR, contentStart.value);
      if c.None? {
        return Failure(NullDereference);
      }
      var q := SkipToBlankLine(s, c.value);
      if q.Failure? {
        return Failure(q.error);
      }
      contentStart := Some(q.value);
    }
    r := Success(Located(contentStart, contentEnd));
  }

  /** The body of the delimiter loop on the candidate dash at `p`: the pointer tests, in the code's order. */
  method ExamineCandidate(s: seq<byte>, bd: seq<byte>, p: nat, acc: Located) returns (r: Result<Located, Fault>)
    requires InScanWindow(s, |bd|, p)
    ensures r == Examine(s, bd, p, acc)
  {
    var L := |bd|;
    r := Success(acc);
    if s[p + 1] != DASH || HasPrefix(bd, CText(s, p + 2)) {
      return;
    }
    if p == 1 && s[0] == LF {
      return Failure(ReadBeforeChunk);
    }
    if p == 0 || (s[p - 1] == LF && s[p - 2] == CR) {
      if s[p + L + 2] == DASH && s[p + L + 3] == DASH {
        if p < 2 {
          return Failure(PointerBeforeChunk);
        }
        r := Success(acc.(contentEnd := Some(p - 2)));
      } else if s[p + L + 2] == CR && s[p + L + 3] == LF {
        r := Success(acc.(contentStart := Some(p + L + 3)));
      }
    }
  }

  /**
    The CR search loop of `find_content_part` from the '\r' at `c`.  The C loop
    guard `c < end` always holds here: every way the search can leave the chunk
    is a `Fault`.
  */
  method SkipToBlankLine(s: seq<byte>, c: nat) returns (r: Result<nat, Fault>)
    requires c < |s| && s[c] == CR
    ensures r == SeekBlankLine(s, c)
  {
    var cur := c;
    while true
      invariant cur < |s| && s[cur] == CR && SeekBlankLine(s, cur) == SeekBlankLine(s, c)
      decreases |s| - cur
    {
      if cur + 1 == |s| {
        return Failure(ReadPastChunk);
      }
      if s[cur + 1] == LF {
        if cur + 2 == |s| {
          return Failure(ReadPastChunk);
        }
        if s[cur + 2] == CR {
          if cur + 3 == |s| {
            return Failure(ReadPastChunk);
          }
          if s[cur + 3] == LF {
            return Success(cur + 4);
          }
        }
      }
      if cur + 2 == |s| {
        return Failure(NullDereference);
      }
      var next := FindByte(s, CR, cur + 4);
      if next.None? {
        return Failure(ReadPastChunk);
      }
      cur := next.value;
    }
  }

  // ---------------------------------------------------------------------------
  // What the delimiter loop examines and accepts

  /** The candidate dashes the delimiter loop examines when it reaches the dash at `cur`. */
  predicate Visits(s: seq<byte>, boundaryLen: nat, cur: nat, m: nat)
    decreases |s| - cur
  {
    InScanWindow(s, boundaryLen, cur) &&
    (m == cur ||
     match FindByte(s, DASH, cur + 2)
     case None => false
     case Some(n) => Visits(s, boundaryLen, n, m))
  }

  /** The candidates the delimiter loop examines on the whole chunk. */
  predicate Examined(s: seq<byte>, boundaryLen: nat, m: nat)
  {
    match FindByte(s, DASH, 0)
    case None => false
    case Some(b) => Visits(s, boundaryLen, b, m)
  }

  /** A delimiter line the loop accepts: dash pair, past the reversed prefix test, at the start of a line. */
  predicate Delimiter(s: seq<byte>, bd: seq<byte>, m: nat)
  {
    InScanWindow(s, |bd|, m) && !Skipped(s, bd, m) &&
    (m == 0 || (m >= 2 && s[m - 1] == LF && s[m - 2] == CR))
  }

  /** An accepted delimiter followed by `--`: a closing marker. */
  predicate CloseMarker(s: seq<byte>, bd: seq<byte>, m: nat)
  {
    Delimiter(s, bd, m) && s[m + |bd| + 2] == DASH && s[m + |bd| + 3] == DASH
  }

  /** An accepted delimiter followed by CRLF: an opening marker. */
  predicate OpenMarker(s: seq<byte>, bd: seq<byte>, m: nat)
  {
    Delimiter(s, bd, m) && s[m + |bd| + 2] == CR && s[m + |bd| + 3] == LF
  }

  /** Every examined candidate is a dash inside the loop guard's window, at or after the first one. */
  lemma {:induction false} VisitsInWindow(s: seq<byte>, boundaryLen: nat, cur: nat, m: nat)
    requires cur < |s| && s[cur] == DASH
    requires Visits(s, boundaryLen, cur, m)
    ensures cur <= m && InScanWindow(s, boundaryLen, m) && s[m] == DASH
    decreases |s| - cur
  {
    if m != cur {
      var n := FindByte(s, DASH, cur + 2).value;
      VisitsInWindow(s, boundaryLen, n, m);
    }
  }

  /** From a candidate with a next dash, the loop examines that candidate and then what it examines from the next one. */
  lemma VisitsStep(s: seq<byte>, boundaryLen: nat, b: nat, b': nat)
    requires InScanWindow(s, boundaryLen, b) && FindByte(s, DASH, b + 2) == Some(b')
    ensures forall m: nat :: Visits(s, boundaryLen, b, m) <==> m == b || Visits(s, boundaryLen, b', m)
  {
  }

  /** From a candidate with no next dash, the loop examines only that candidate. */
  lemma VisitsLast(s: seq<byte>, boundaryLen: nat, b: nat)
    requires InScanWindow(s, boundaryLen, b) && FindByte(s, DASH, b + 2).None?
    ensures forall m: nat :: Visits(s, boundaryLen, b, m) <==> m == b
  {
  }

  /** What one loop pass does to `content_end` when it does not fault. */
  lemma ExamineEnd(s: seq<byte>, bd: seq<byte>, b: nat, acc: Located, next: Located)
    requires InScanWindow(s, |bd|, b)
    requires Examine(s, bd, b, acc) == Success(next)
    ensures CloseMarker(s, bd, b) ==> b >= 2 && next.contentEnd == Some(b - 2)
    ensures !CloseMarker(s, bd, b) ==> next.contentEnd == acc.contentEnd
  {
  }

  /** What one loop pass does to `content_start` when it does not fault. */
  lemma ExamineStart(s: seq<byte>, bd: seq<byte>, b: nat, acc: Located, next: Located)
    requires InScanWindow(s, |bd|, b)
    requires Examine(s, bd, b, acc) == Success(next)
    ensures OpenMarker(s, bd, b) ==> next.contentStart == Some(b + |bd| + 3)
    ensures !OpenMarker(s, bd, b) ==> next.contentStart == acc.contentStart
  {
  }

  /** Every closing marker the loop examines leaves `content_end` set, at or past its own setting. */
  lemma {:induction false} ScanClosesAll(s: seq<byte>, bd: seq<byte>, b: nat, acc: Located, loc: Located)
    requires ScanFrom(s, bd, b, acc) == Success(loc)
    ensures forall m: nat :: Visits(s, |bd|, b, m) && CloseMarker(s, bd, m) ==>
              loc.contentEnd.Some? && m <= loc.contentEnd.value + 2
    decreases |s| - b
  {
    if InScanWindow(s, |bd|, b) {
      var next := Examine(s, bd, b, acc).value;
      ExamineEnd(s, bd, b, acc, next);
      match FindByte(s, DASH, b + 2)
      case None =>
        VisitsLast(s, |bd|, b);
      case Some(b') =>
        ScanClosesAll(s, bd, b', next, loc);
        ScanClosesLast(s, bd, b', next, loc);
        VisitsStep(s, |bd|, b, b');
        if CloseMarker(s, bd, b) {
          if loc.contentEnd != next.contentEnd {
            // a later closing marker overwrote the one at `b`
            VisitsInWindow(s, |bd|, b', loc.contentEnd.value + 2);
          }
          assert loc.contentEnd.Some? && b <= loc.contentEnd.value + 2;
        }
    }
  }

  /** When the loop changes `content_end`, the final value is two before an examined closing marker. */
  lemma {:induction false} ScanClosesLast(s: seq<byte>, bd: seq<byte>, b: nat, acc: Located, loc: Located)
    requires ScanFrom(s, bd, b, acc) == Success(loc)
    ensures loc.contentEnd != acc.contentEnd ==>
              loc.contentEnd.Some? && Visits(s, |bd|, b, loc.contentEnd.value + 2) &&
              CloseMarker(s, bd, loc.contentEnd.value + 2)
    decreases |s| - b
  {
    if InScanWindow(s, |bd|, b) {
      var next := Examine(s, bd, b, acc).value;
      ExamineEnd(s, bd, b, acc, next);
      match FindByte(s, DASH, b + 2)
      case None =>
        // a closing marker has a dash after it, so the last candidate is never one
      case Some(b') =>
        ScanClosesLast(s, bd, b', next, loc);
        if loc.contentEnd != next.contentEnd {
          VisitsStep(s, |bd|, b, b');
        } else if loc.contentEnd != acc.contentEnd {
          assert Visits(s, |bd|, b, b);
        }
    }
  }

  /** Every opening marker the loop examines leaves `content_start` set, at or past its own setting. */
  lemma {:induction false} ScanOpensAll(s: seq<byte>, bd: seq<byte>, b: nat, acc: Located, loc: Located)
    requires ScanFrom(s, bd, b, acc) == Success(loc)
    ensures forall m: nat :: Visits(s, |bd|, b, m) && OpenMarker(s, bd, m) ==>
              loc.contentStart.Some? && m + |bd| + 3 <= loc.contentStart.value
    decreases |s| - b
  {
    if InScanWindow(s, |bd|, b) {
      var next := Examine(s, bd, b, acc).value;
      ExamineStart(s, bd, b, acc, next);
      match FindByte(s, DASH, b + 2)
      case None =>
        VisitsLast(s, |bd|, b);
      case Some(b') =>
        ScanOpensAll(s, bd, b', next, loc);
        ScanOpensLast(s, bd, b', next, loc);
        VisitsStep(s, |bd|, b, b');
        if loc.contentStart != next.contentStart {
          VisitsInWindow(s, |bd|, b', loc.contentStart.value - |bd| - 3);
        }
    }
  }

  /** When the loop changes `content_start`, the final value comes from an examined opening marker. */
  lemma {:induction false} ScanOpensLast(s: seq<byte>, bd: seq<byte>, b: nat, acc: Located, loc: Located)
    requires ScanFrom(s, bd, b, acc) == Success(loc)
    ensures loc.contentStart != acc.contentStart ==>
              loc.contentStart.Some? && OpenedAt(s, bd, b, loc.contentStart.value)
    decreases |s| - b
  {
    if InScanWindow(s, |bd|, b) {
      var next := Examine(s, bd, b, acc).value;
      ExamineStart(s, bd, b, acc, next);
      match FindByte(s, DASH, b + 2)
      case None =>
        if loc.contentStart != acc.contentStart {
          assert Visits(s, |bd|, b, b);
        }
      case Some(b') =>
        ScanOpensLast(s, bd, b', next, loc);
        if loc.contentStart != next.contentStart {
          var m := loc.contentStart.value - |bd| - 3;
          assert Visits(s, |bd|, b', m);
          assert Visits(s, |bd|, b, m);
        } else if loc.contentStart != acc.contentStart {
          assert Visits(s, |bd|, b, b);
        }
    }
  }

  /** `p` is `boundary_len + 3` past an opening marker that the loop examines from the dash at `b`. */
  predicate OpenedAt(s: seq<byte>, bd: seq<byte>, b: nat, p: nat)
  {
    p >= |bd| + 3 && Visits(s, |bd|, b, p - |bd| - 3) && OpenMarker(s, bd, p - |bd| - 3)
  }

  /**
    `content_end` is set exactly when the loop examines a closing marker, and
    then it is two bytes before the last one examined (later markers overwrite
    earlier ones).
  */
  lemma LocateEndIsLastCloseMarker(s: seq<byte>, bd: seq<byte>)
    requires LocatePart(s, bd).Success?
    ensures var loc := LocatePart(s, bd).value;
      (loc.contentEnd.Some? <==> exists m: nat :: Examined(s, |bd|, m) && CloseMarker(s, bd, m)) &&
      (loc.contentEnd.Some? ==>
         Examined(s, |bd|, loc.contentEnd.value + 2) && CloseMarker(s, bd, loc.contentEnd.value + 2) &&
         forall m: nat :: Examined(s, |bd|, m) && CloseMarker(s, bd, m) ==> m <= loc.contentEnd.value + 2)
  {
    var loc := LocatePart(s, bd).value;
    match FindByte(s, DASH, 0)
    case None =>
      assert forall m: nat :: !Examined(s, |bd|, m);
    case Some(b) =>
      var scanned := ScanFrom(s, bd, b, Unset).value;
      assert loc.contentEnd == scanned.contentEnd;
      assert forall m: nat :: Examined(s, |bd|, m) == Visits(s, |bd|, b, m);
      ScanClosesAll(s, bd, b, Unset, scanned);
      ScanClosesLast(s, bd, b, Unset, scanned);
  }

  /**
    `content_start` is set exactly when the loop examines an opening marker;
    it is then moved past the blank line that the CR search finds from the
    last opening marker's line feed.
  */
  lemma LocateStartFollowsLastOpenMarker(s: seq<byte>, bd: seq<byte>)
    requires LocatePart(s, bd).Success?
    ensures var loc := LocatePart(s, bd).value;
      (loc.contentStart.Some? <==> exists m: nat :: Examined(s, |bd|, m) && OpenMarker(s, bd, m)) &&
      (loc.contentStart.Some? ==>
         exists m: nat :: Examined(s, |bd|, m) && OpenMarker(s, bd, m) &&
           (forall m': nat :: Examined(s, |bd|, m') && OpenMarker(s, bd, m') ==> m' <= m) &&
           BlankLineAfter(s, m + |bd| + 3) == Success(loc.contentStart.value))
  {
    match FindByte(s, DASH, 0)
    case None =>
      assert forall m: nat :: !Examined(s, |bd|, m);
    case Some(b) =>
      var scanned := ScanFrom(s, bd, b, Unset).value;
      assert forall m: nat :: Examined(s, |bd|, m) == Visits(s, |bd|, b, m);
      ScanOpensAll(s, bd, b, Unset, scanned);
      ScanOpensLast(s, bd, b, Unset, scanned);
      if scanned.contentStart.Some? {
        LastOpenMarkerMoved(s, bd, b, scanned);
      }
  }

  /** The witness for `LocateStartFollowsLastOpenMarker`: the opening marker the scan's `content_start` came from. */
  lemma LastOpenMarkerMoved(s: seq<byte>, bd: seq<byte>, b: nat, scanned: Located)
    requires LocatePart(s, bd).Success? && FindByte(s, DASH, 0) == Some(b)
    requires ScanFrom(s, bd, b, Unset) == Success(scanned) && scanned.contentStart.Some?
    requires OpenedAt(s, bd, b, scanned.contentStart.value)
    ensures var m := scanned.contentStart.value - |bd| - 3;
      Examined(s, |bd|, m) && OpenMarker(s, bd, m) &&
      BlankLineAfter(s, m + |bd| + 3) == Success(LocatePart(s, bd).value.contentStart.value)
  {
  }

  // ---------------------------------------------------------------------------
  // The bytes pushed into the endpoint

  /** Both out-parameters, when set, point into the chunk or just past it. */
  predicate InChunk(s: seq<byte>, loc: Located)
  {
    (loc.contentStart.Some? ==> loc.contentStart.value <= |s|) &&
    (loc.contentEnd.Some? ==> loc.contentEnd.value <= |s|)
  }

  /** The first byte copied: `content_start`, or the chunk's first byte. */
  function SliceLow(loc: Located): (r: nat)
  {
    if loc.contentStart.Some? then loc.contentStart.value else 0
  }

  /** One past the last byte copied: `content_end`, or the chunk's end. */
  function SliceHigh(s: seq<byte>, loc: Located): (r: nat)
  {
    if loc.contentEnd.Some? then loc.contentEnd.value else |s|
  }

  /**
    The buffer `got_chunk_handler` fills from the chunk given the located
    pointers; when `content_end` lies before `content_start` the length is
    negative and the allocation and copy are undefined.
  */
  function Slice(s: seq<byte>, loc: Located): (r: Result<seq<byte>, Fault>)
    requires InChunk(s, loc)
    ensures r.Failure? <==> SliceHigh(s, loc) < SliceLow(loc)
    ensures r.Failure? ==> r.error == NegativeLength
    ensures r.Success? ==>
              |r.value| == SliceHigh(s, loc) - SliceLow(loc) &&
              forall i :: 0 <= i < |r.value| ==> r.value[i] == s[SliceLow(loc) + i]
  {
    var lo := SliceLow(loc);
    var hi := SliceHigh(s, loc);
    if hi < lo then Failure(NegativeLength) else Success(s[lo..hi])
  }

  /** The delimiter loop only moves the out-parameters to places inside the chunk. */
  lemma {:induction false} ScanStaysInChunk(s: seq<byte>, bd: seq<byte>, b: nat, acc: Located, loc: Located)
    requires InChunk(s, acc)
    requires ScanFrom(s, bd, b, acc) == Success(loc)
    ensures InChunk(s, loc)
    decreases |s| - b
  {
    if InScanWindow(s, |bd|, b) {
      var next := Examine(s, bd, b, acc).value;
      ExamineStart(s, bd, b, acc, next);
      ExamineEnd(s, bd, b, acc, next);
      match FindByte(s, DASH, b + 2)
      case None =>
      case Some(b') => ScanStaysInChunk(s, bd, b', next, loc);
    }
  }

  /** Whatever the locator returns points into the chunk. */
  lemma LocatedInChunk(s: seq<byte>, bd: seq<byte>)
    requires LocatePart(s, bd).Success?
    ensures InChunk(s, LocatePart(s, bd).value)
  {
    match FindByte(s, DASH, 0)
    case None =>
    case Some(b) => ScanStaysInChunk(s, bd, b, Unset, ScanFrom(s, bd, b, Unset).value);
  }

  /**
    The payload of one chunk: the whole chunk when the message has no
    boundary, otherwise the located part.
  */
  function SelectPayload(s: seq<byte>, boundary: Option<seq<byte>>): (r: Result<seq<byte>, Fault>)
    ensures boundary.None? ==> r == Success(s)
    ensures boundary.Some? && LocatePart(s, boundary.value).Failure? ==>
              r == Failure(LocatePart(s, boundary.value).error)
    ensures boundary.Some? && LocatePart(s, boundary.value).Success? ==>
              InChunk(s, LocatePart(s, boundary.value).value) &&
              r == Slice(s, LocatePart(s, boundary.value).value)
  {
    match boundary
    case None => Success(s)
    case Some(bd) =>
      match LocatePart(s, bd)
      case Failure(f) => Failure(f)
      case Success(loc) =>
        LocatedInChunk(s, bd);
        Slice(s, loc)
  }

  // ---------------------------------------------------------------------------
  // Properties of the locator

  /**
    A part located at both ends is pushed without its framing: it follows the
    blank line after an opening marker and ends just before the CRLF that
    opens the last closing marker's line.
  */
  lemma PayloadFramedByDelimiters(s: seq<byte>, bd: seq<byte>, loc: Located, payload: seq<byte>)
    requires LocatePart(s, bd) == Success(loc) && loc.contentStart.Some? && loc.contentEnd.Some?
    requires SelectPayload(s, Some(bd)) == Success(payload)
    ensures var lo := loc.contentStart.value;
      var hi := loc.contentEnd.value;
      4 <= lo <= hi && hi + |bd| + 6 < |s| &&
      s[lo - 4..lo] == [CR, LF, CR, LF] &&
      s[hi..hi + 4] == [CR, LF, DASH, DASH] &&
      payload == s[lo..hi]
  {
    var hi := loc.contentEnd.value;
    BlankLineBefore(s, bd, loc);
    CloseFramesEnd(s, bd, loc);
    LocatedInChunk(s, bd);
    assert SelectPayload(s, Some(bd)) == Slice(s, loc);
  }

  /** A set `content_end` always lies just before a CRLF followed by `--` and the boundary's room. */
  lemma CloseFramesEnd(s: seq<byte>, bd: seq<byte>, loc: Located)
    requires LocatePart(s, bd) == Success(loc) && loc.contentEnd.Some?
    ensures var hi := loc.contentEnd.value;
      hi + |bd| + 6 < |s| && s[hi..hi + 4] == [CR, LF, DASH, DASH]
  {
    var hi := loc.contentEnd.value;
    LocateEndIsLastCloseMarker(s, bd);
    assert Examined(s, |bd|, hi + 2) && CloseMarker(s, bd, hi + 2);
    var first := FindByte(s, DASH, 0).value;
    VisitsInWindow(s, |bd|, first, hi + 2);
    ClosingFrame(s, bd, hi + 2);
  }

  /** A set `content_start` always follows a CRLFCRLF. */
  lemma BlankLineBefore(s: seq<byte>, bd: seq<byte>, loc: Located)
    requires LocatePart(s, bd) == Success(loc) && loc.contentStart.Some?
    ensures var lo := loc.contentStart.value;
      4 <= lo <= |s| && s[lo - 4..lo] == [CR, LF, CR, LF]
  {
    var scanned := ScanRest(s, bd, FindByte(s, DASH, 0), Unset).value;
    var q := BlankLineAfter(s, scanned.contentStart.value).value;
    assert loc.contentStart.value == q;
    assert s[q - 4..q] == [CR, LF, CR, LF];
  }

  /** The bytes around a closing marker that is not at the chunk's first byte. */
  lemma ClosingFrame(s: seq<byte>, bd: seq<byte>, m: nat)
    requires CloseMarker(s, bd, m) && m >= 2 && s[m] == DASH
    ensures m + |bd| + 4 < |s| && s[m - 2..m + 2] == [CR, LF, DASH, DASH]
  {
  }

  /**
    On a chunk without NUL bytes the reversed prefix test never holds, so the
    boundary's value is not compared at all: any `--` inside the scan window
    passes the first test.
  */
  lemma BoundaryTextIgnored(s: seq<byte>, bd: seq<byte>, b: nat)
    requires NulFree(s) && InScanWindow(s, |bd|, b)
    ensures Skipped(s, bd, b) <==> s[b + 1] != DASH
  {
    TextLongerThanBoundary(s, bd, b + 2);
  }

  /** The text at `k` is longer than the boundary when the `|bd| + 1` bytes from `k` hold no NUL. */
  lemma TextLongerThanBoundary(s: seq<byte>, bd: seq<byte>, k: nat)
    requires k + |bd| < |s|
    requires forall i :: k <= i <= k + |bd| ==> s[i] != NUL
    ensures !HasPrefix(bd, CText(s, k))
  {
  }

  /** A chunk in which no dash is followed by a dash is not scanned into, so it is pushed whole. */
  lemma {:induction false} NoDashPairScansNothing(s: seq<byte>, bd: seq<byte>, b: nat, acc: Located)
    requires forall i :: 0 <= i < |s| - 1 ==> s[i] != DASH || s[i + 1] != DASH
    requires b < |s| && s[b] == DASH
    ensures ScanFrom(s, bd, b, acc) == Success(acc)
    decreases |s| - b
  {
    if InScanWindow(s, |bd|, b) {
      assert Skipped(s, bd, b);
      match FindByte(s, DASH, b + 2)
      case None =>
      case Some(b') => NoDashPairScansNothing(s, bd, b', acc);
    }
  }

  /** Chunks in the middle of a body, with no `--` in them, reach the endpoint unchanged. */
  lemma BodyChunkPushedWhole(s: seq<byte>, bd: seq<byte>)
    requires forall i :: 0 <= i < |s| - 1 ==> s[i] != DASH || s[i + 1] != DASH
    ensures LocatePart(s, bd) == Success(Unset)
    ensures SelectPayload(s, Some(bd)) == Success(s)
  {
    assert s[0..|s|] == s;
    match FindByte(s, DASH, 0)
    case None =>
    case Some(b) => NoDashPairScansNothing(s, bd, b, Unset);
  }

  /** A closing marker at the very start of the chunk forms `content_end` one byte before it. */
  lemma LeadingCloseMarkerFaults(s: seq<byte>, bd: seq<byte>)
    requires InScanWindow(s, |bd|, 0)
    requires s[0] == DASH && s[1] == DASH && !HasPrefix(bd, CText(s, 2))
    requires s[|bd| + 2] == DASH && s[|bd| + 3] == DASH
    ensures LocatePart(s, bd) == Failure(PointerBeforeChunk)
  {
    assert FindByte(s, DASH, 0) == Some(0);
  }

  /** A delimiter right after a leading line feed makes the start-of-line test read before the chunk. */
  lemma LeadingLineFeedFaults(s: seq<byte>, bd: seq<byte>)
    requires InScanWindow(s, |bd|, 1)
    requires s[0] == LF && s[1] == DASH && s[2] == DASH && !HasPrefix(bd, CText(s, 3))
    ensures LocatePart(s, bd) == Failure(ReadBeforeChunk)
  {
    assert FindByte(s, DASH, 0) == Some(1);
  }

  // ---------------------------------------------------------------------------
  // Worked chunks (boundary "B")

  const BoundaryB: seq<byte> := [0x42]

  /**
    `--B\r\nH\r\n\r\nDATA\r\n--B--\r\n`: a part with one header line and a
    closing marker followed by CRLF is located at `DATA`.
  */
  lemma WellFormedPartLocated()
    ensures var s: seq<byte> := [DASH, DASH, 0x42, CR, LF, 0x48, CR, LF, CR, LF,
                                 0x44, 0x41, 0x54, 0x41, CR, LF, DASH, DASH, 0x42, DASH, DASH, CR, LF];
      LocatePart(s, BoundaryB) == Success(Located(Some(10), Some(14))) &&
      SelectPayload(s, Some(BoundaryB)) == Success([0x44, 0x41, 0x54, 0x41])
  {
    var s: seq<byte> := [DASH, DASH, 0x42, CR, LF, 0x48, CR, LF, CR, LF,
                         0x44, 0x41, 0x54, 0x41, CR, LF, DASH, DASH, 0x42, DASH, DASH, CR, LF];
    WellFormedLocated(s);
    LocatedInChunk(s, BoundaryB);
    assert SelectPayload(s, Some(BoundaryB)) == Slice(s, Located(Some(10), Some(14)));
    assert s[10..14] == [0x44, 0x41, 0x54, 0x41];
  }

  /** The well-formed chunk's part runs from 10 to 14. */
  lemma WellFormedLocated(s: seq<byte>)
    requires s == [DASH, DASH, 0x42, CR, LF, 0x48, CR, LF, CR, LF,
                   0x44, 0x41, 0x54, 0x41, CR, LF, DASH, DASH, 0x42, DASH, DASH, CR, LF]
    ensures LocatePart(s, BoundaryB) == Success(Located(Some(10), Some(14)))
  {
    WellFormedScanned(s);
    FindByteIsFirst(s, DASH, 0, 0);
    WellFormedBlankLine(s);
    LocateFromScan(s, BoundaryB, 0, Located(Some(4), Some(14)), 10);
  }

  /** The CR search from the well-formed chunk's opening line feed finds the blank line at 6. */
  lemma WellFormedBlankLine(s: seq<byte>)
    requires s == [DASH, DASH, 0x42, CR, LF, 0x48, CR, LF, CR, LF,
                   0x44, 0x41, 0x54, 0x41, CR, LF, DASH, DASH, 0x42, DASH, DASH, CR, LF]
    ensures BlankLineAfter(s, 4) == Success(10)
  {
    FindByteIsFirst(s, CR, 4, 6);
  }

  /** The locator's result once the loop's result and the CR search's result are known. */
  lemma LocateFromScan(s: seq<byte>, bd: seq<byte>, b: nat, loc: Located, q: nat)
    requires FindByte(s, DASH, 0) == Some(b) && ScanFrom(s, bd, b, Unset) == Success(loc)
    requires loc.contentStart.Some? && BlankLineAfter(s, loc.contentStart.value) == Success(q)
    ensures LocatePart(s, bd) == Success(loc.(contentStart := Some(q)))
  {
  }

  /** The delimiter loop on the well-formed chunk sets both out-parameters. */
  lemma WellFormedScanned(s: seq<byte>)
    requires s == [DASH, DASH, 0x42, CR, LF, 0x48, CR, LF, CR, LF,
                   0x44, 0x41, 0x54, 0x41, CR, LF, DASH, DASH, 0x42, DASH, DASH, CR, LF]
    ensures ScanFrom(s, BoundaryB, 0, Unset) == Success(Located(Some(4), Some(14)))
  {
    WellFormedOpening(s);
    WellFormedClosing(s);
    FindByteIsFirst(s, DASH, 18, 19);
    var second := Located(Some(4), Some(14));
    assert ScanFrom(s, BoundaryB, 19, second) == Success(second);
    ScanStep(s, BoundaryB, 16, Located(Some(4), None), second, 19);
    ScanStep(s, BoundaryB, 0, Unset, Located(Some(4), None), 16);
  }

  /** The well-formed chunk's opening marker at 0 sets `content_start` to its line feed. */
  lemma WellFormedOpening(s: seq<byte>)
    requires s == [DASH, DASH, 0x42, CR, LF, 0x48, CR, LF, CR, LF,
                   0x44, 0x41, 0x54, 0x41, CR, LF, DASH, DASH, 0x42, DASH, DASH, CR, LF]
    ensures Examine(s, BoundaryB, 0, Unset) == Success(Located(Some(4), None))
    ensures FindByte(s, DASH, 2) == Some(16)
  {
    TextLongerThanBoundary(s, BoundaryB, 2);
    FindByteIsFirst(s, DASH, 2, 16);
  }

  /** The well-formed chunk's closing marker at 16 sets `content_end` to its carriage return. */
  lemma WellFormedClosing(s: seq<byte>)
    requires s == [DASH, DASH, 0x42, CR, LF, 0x48, CR, LF, CR, LF,
                   0x44, 0x41, 0x54, 0x41, CR, LF, DASH, DASH, 0x42, DASH, DASH, CR, LF]
    ensures Examine(s, BoundaryB, 16, Located(Some(4), None)) == Success(Located(Some(4), Some(14)))
  {
    TextLongerThanBoundary(s, BoundaryB, 18);
  }

  /** One pass of the delimiter loop that does not fault moves on to the next dash. */
  lemma ScanStep(s: seq<byte>, bd: seq<byte>, b: nat, acc: Located, next: Located, b': nat)
    requires InScanWindow(s, |bd|, b)
    requires Examine(s, bd, b, acc) == Success(next) && FindByte(s, DASH, b + 2) == Some(b')
    ensures ScanFrom(s, bd, b, acc) == ScanFrom(s, bd, b', next)
  {
  }

  /**
    `--B\r\nContent\r\n--B--`: the closing marker is too close to the chunk's
    end for the loop guard, and the CR search then runs past the end.
  */
  lemma UnterminatedPartReadsPastChunk()
    ensures var s: seq<byte> := [DASH, DASH, 0x42, CR, LF, 0x43, 0x6F, 0x6E, 0x74, 0x65, 0x6E, 0x74,
                                 CR, LF, DASH, DASH, 0x42, DASH, DASH];
      LocatePart(s, BoundaryB) == Failure(ReadPastChunk)
  {
    var s: seq<byte> := [DASH, DASH, 0x42, CR, LF, 0x43, 0x6F, 0x6E, 0x74, 0x65, 0x6E, 0x74,
                         CR, LF, DASH, DASH, 0x42, DASH, DASH];
    UnterminatedScanned(s);
    FindByteIsFirst(s, DASH, 0, 0);
    UnterminatedBlankLine(s);
  }

  /** The CR search from the unterminated chunk's LF at 4 finds only the CR at 12 and reads past the end. */
  lemma UnterminatedBlankLine(s: seq<byte>)
    requires s == [DASH, DASH, 0x42, CR, LF, 0x43, 0x6F, 0x6E, 0x74, 0x65, 0x6E, 0x74,
                   CR, LF, DASH, DASH, 0x42, DASH, DASH]
    ensures BlankLineAfter(s, 4) == Failure(ReadPastChunk)
  {
    FindByteIsFirst(s, CR, 4, 12);
    assert FindByte(s, CR, 16) == None;
    assert SeekBlankLine(s, 12) == Failure(ReadPastChunk);
  }

  /** The delimiter loop on the unterminated chunk sets only `content_start`, to 4. */
  lemma UnterminatedScanned(s: seq<byte>)
    requires s == [DASH, DASH, 0x42, CR, LF, 0x43, 0x6F, 0x6E, 0x74, 0x65, 0x6E, 0x74,
                   CR, LF, DASH, DASH, 0x42, DASH, DASH]
    ensures ScanFrom(s, BoundaryB, 0, Unset) == Success(Located(Some(4), None))
  {
    TextLongerThanBoundary(s, BoundaryB, 2);
    var first := Located(Some(4), None);
    assert Examine(s, BoundaryB, 0, Unset) == Success(first);
    FindByteIsFirst(s, DASH, 2, 14);
    assert ScanFrom(s, BoundaryB, 14, first) == Success(first);
  }

  /**
    `--B\r\nH\r\r\n\r\nXX`: after the CR at 6 the search resumes at 10 and
    misses the blank line that begins at 7.
  */
  lemma BlankLineMissedAfterStrayCR()
    ensures var s: seq<byte> := [DASH, DASH, 0x42, CR, LF, 0x48, CR, CR, LF, CR, LF, 0x58, 0x58];
      LocatePart(s, BoundaryB) == Failure(ReadPastChunk)
  {
    var s: seq<byte> := [DASH, DASH, 0x42, CR, LF, 0x48, CR, CR, LF, CR, LF, 0x58, 0x58];
    TextLongerThanBoundary(s, BoundaryB, 2);
    FindByteIsFirst(s, DASH, 0, 0);
    var first := Located(Some(4), None);
    assert Examine(s, BoundaryB, 0, Unset) == Success(first);
    assert FindByte(s, DASH, 2) == None;
    assert ScanFrom(s, BoundaryB, 0, Unset) == Success(first);
    FindByteIsFirst(s, CR, 4, 6);
    assert FindByte(s, CR, 10) == None;
    assert SeekBlankLine(s, 6) == Failure(ReadPastChunk);
  }

  /**
    `--B\r\n\r\nDATA\r\n--B--\r\n`: a part with no header lines.  `content_start`
    lands on the LF at 4, so the CR search starts at the CR at 5, one byte past the
    CRLFCRLF at 3, and steps on through 11 and 18 until it reads past the chunk.
  */
  lemma NoHeaderPartReadsPastChunk()
    ensures var s: seq<byte> := [DASH, DASH, 0x42, CR, LF, CR, LF, 0x44, 0x41, 0x54, 0x41,
                                 CR, LF, DASH, DASH, 0x42, DASH, DASH, CR, LF];
      LocatePart(s, BoundaryB) == Failure(ReadPastChunk)
  {
    var s: seq<byte> := [DASH, DASH, 0x42, CR, LF, CR, LF, 0x44, 0x41, 0x54, 0x41,
                         CR, LF, DASH, DASH, 0x42, DASH, DASH, CR, LF];
    NoHeaderScanned(s);
    FindByteIsFirst(s, DASH, 0, 0);
    NoHeaderBlankLine(s);
  }

  /** The delimiter loop on the header-less chunk sets `content_start` to 4 and `content_end` to 11. */
  lemma NoHeaderScanned(s: seq<byte>)
    requires s == [DASH, DASH, 0x42, CR, LF, CR, LF, 0x44, 0x41, 0x54, 0x41,
                   CR, LF, DASH, DASH, 0x42, DASH, DASH, CR, LF]
    ensures ScanFrom(s, BoundaryB, 0, Unset) == Success(Located(Some(4), Some(11)))
  {
    NoHeaderOpening(s);
    NoHeaderClosing(s);
    var first := Located(Some(4), None);
    var second := Located(Some(4), Some(11));
    FindByteIsFirst(s, DASH, 15, 16);
    assert ScanFrom(s, BoundaryB, 16, second) == Success(second);
    ScanStep(s, BoundaryB, 13, first, second, 16);
    ScanStep(s, BoundaryB, 0, Unset, first, 13);
  }

  /** The header-less chunk's opening marker at 0 sets `content_start` to its line feed. */
  lemma NoHeaderOpening(s: seq<byte>)
    requires s == [DASH, DASH, 0x42, CR, LF, CR, LF, 0x44, 0x41, 0x54, 0x41,
                   CR, LF, DASH, DASH, 0x42, DASH, DASH, CR, LF]
    ensures Examine(s, BoundaryB, 0, Unset) == Success(Located(Some(4), None))
    ensures FindByte(s, DASH, 2) == Some(13)
  {
    TextLongerThanBoundary(s, BoundaryB, 2);
    FindByteIsFirst(s, DASH, 2, 13);
  }

  /** The header-less chunk's closing marker at 13 sets `content_end` to its carriage return. */
  lemma NoHeaderClosing(s: seq<byte>)
    requires s == [DASH, DASH, 0x42, CR, LF, CR, LF, 0x44, 0x41, 0x54, 0x41,
                   CR, LF, DASH, DASH, 0x42, DASH, DASH, CR, LF]
    ensures Examine(s, BoundaryB, 13, Located(Some(4), None)) == Success(Located(Some(4), Some(11)))
  {
    TextLongerThanBoundary(s, BoundaryB, 15);
  }

  /** The CR search from the header-less chunk's LF at 4 visits 5, 11 and 18 and reads past the end. */
  lemma NoHeaderBlankLine(s: seq<byte>)
    requires s == [DASH, DASH, 0x42, CR, LF, CR, LF, 0x44, 0x41, 0x54, 0x41,
                   CR, LF, DASH, DASH, 0x42, DASH, DASH, CR, LF]
    ensures BlankLineAfter(s, 4) == Failure(ReadPastChunk)
  {
    FindByteIsFirst(s, CR, 4, 5);
    FindByteIsFirst(s, CR, 9, 11);
    FindByteIsFirst(s, CR, 15, 18);
    assert SeekBlankLine(s, 18) == Failure(ReadPastChunk);
    assert SeekBlankLine(s, 11) == Failure(ReadPastChunk);
  }
}
