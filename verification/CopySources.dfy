/** The CopySource header: bucket and key, percent-encoded segment by segment
    (section 2.1 of RFC 3986), and the decoding that undoes it. */
module CopySources {
  import opened Bytes
  import opened Paths

  const PERCENT: Byte := 37

  function HexDigit(v: int): Byte
    requires 0 <= v < 16
  {
    if v < 10 then 48 + v else 55 + v
  }

  function HexValue(b: Byte): (v: Option<int>)
    ensures v.Some? ==> 0 <= v.value < 16
  {
    if 48 <= b <= 57 then Some(b - 48)
    else if 65 <= b <= 70 then Some(b - 55)
    else if 97 <= b <= 102 then Some(b - 87)
    else None
  }

  /** Bytes a path segment keeps: letters, digits, `-` `_` `.` `~` and `$` `&` `+` `:` `=` `@`. */
  predicate Plain(b: Byte) {
    || 97 <= b <= 122 || 65 <= b <= 90 || 48 <= b <= 57
    || b == 45 || b == 95 || b == 46 || b == 126
    || b == 36 || b == 38 || b == 43 || b == 58 || b == 61 || b == 64
  }

  function EscapeByte(b: Byte): Bytes {
    if Plain(b) then [b] else [PERCENT, HexDigit(b / 16), HexDigit(b % 16)]
  }

  function PathEscape(s: Bytes): Bytes {
    if s == [] then [] else EscapeByte(s[0]) + PathEscape(s[1..])
  }

  function EscapeSegments(segs: seq<Bytes>): (r: seq<Bytes>)
    ensures |r| == |segs|
    ensures forall i :: 0 <= i < |segs| ==> r[i] == PathEscape(segs[i])
  {
    if segs == [] then [] else [PathEscape(segs[0])] + EscapeSegments(segs[1..])
  }

  function HeaderOf(bucket: Bytes, key: Bytes): Bytes {
    PathEscape(bucket) + [SLASH] + Join(EscapeSegments(Split(key)))
  }

  /** Percent-decoding; a `%` without two hexadecimal digits is malformed. */
  function Unescape(s: Bytes): Option<Bytes>
    decreases |s|
  {
    if s == [] then Some([])
    else if s[0] != PERCENT then
      (match Unescape(s[1..])
       case None => None
       case Some(t) => Some([s[0]] + t))
    else if |s| < 3 || HexValue(s[1]).None? || HexValue(s[2]).None? then None
    else
      match Unescape(s[3..])
      case None => None
      case Some(t) => Some([16 * HexValue(s[1]).value + HexValue(s[2]).value] + t)
  }

  /** The receiving side: split at the first slash and decode both halves. */
  function DecodeHeader(h: Bytes): Option<(Bytes, Bytes)> {
    if Slashless(h) then None
    else
      var i := FirstSlash(h);
      match (Unescape(h[..i]), Unescape(h[i + 1..]))
      case (Some(bucket), Some(key)) => Some((bucket, key))
      case _ => None
  }

  lemma HexRoundTrip(v: int)
    requires 0 <= v < 16
    ensures HexValue(HexDigit(v)) == Some(v)
  {
  }

  lemma UnescapeTriple(v: int, w: int, t: Bytes)
    requires 0 <= v < 16 && 0 <= w < 16 && Unescape(t).Some?
    ensures Unescape([PERCENT, HexDigit(v), HexDigit(w)] + t) == Some([16 * v + w] + Unescape(t).value)
  {
    var s := [PERCENT, HexDigit(v), HexDigit(w)] + t;
    HexRoundTrip(v);
    HexRoundTrip(w);
    hide HexDigit, HexValue;
    assert s[3..] == t;
  }

  lemma UnescapeByte(b: Byte, t: Bytes)
    requires Unescape(t).Some?
    ensures Unescape(EscapeByte(b) + t) == Some([b] + Unescape(t).value)
  {
    if Plain(b) {
      assert (EscapeByte(b) + t)[1..] == t;
    } else {
      hide HexDigit, Unescape, Plain;
      UnescapeTriple(b / 16, b % 16, t);
    }
  }

  lemma UnescapeSlash(t: Bytes)
    requires Unescape(t).Some?
    ensures Unescape([SLASH] + t) == Some([SLASH] + Unescape(t).value)
  {
    assert ([SLASH] + t)[1..] == t;
  }

  lemma {:induction false} UnescapeSegment(s: Bytes, t: Bytes)
    requires Unescape(t).Some?
    ensures Unescape(PathEscape(s) + t) == Some(s + Unescape(t).value)
  {
    hide EscapeByte, Unescape;
    if s == [] {
      assert PathEscape(s) + t == t && s + Unescape(t).value == Unescape(t).value;
    } else {
      UnescapeSegment(s[1..], t);
      UnescapeByte(s[0], PathEscape(s[1..]) + t);
      assert PathEscape(s) + t == EscapeByte(s[0]) + (PathEscape(s[1..]) + t);
      assert [s[0]] + (s[1..] + Unescape(t).value) == s + Unescape(t).value;
    }
  }

  lemma UnescapePathEscape(s: Bytes)
    ensures Unescape(PathEscape(s)) == Some(s)
  {
    UnescapeSegment(s, []);
    assert PathEscape(s) + [] == PathEscape(s) && s + [] == s;
  }

  lemma {:induction false} UnescapeJoined(segs: seq<Bytes>)
    requires segs != []
    ensures Unescape(Join(EscapeSegments(segs))) == Some(Join(segs))
  {
    hide Unescape, PathEscape;
    if |segs| == 1 {
      UnescapePathEscape(segs[0]);
    } else {
      var t := Join(EscapeSegments(segs[1..]));
      UnescapeJoined(segs[1..]);
      UnescapeSlash(t);
      UnescapeSegment(segs[0], [SLASH] + t);
      assert EscapeSegments(segs)[1..] == EscapeSegments(segs[1..]);
      assert Join(EscapeSegments(segs)) == PathEscape(segs[0]) + ([SLASH] + t);
      assert segs[0] + ([SLASH] + Join(segs[1..])) == Join(segs);
    }
  }

  lemma {:induction false} EscapedSlashless(s: Bytes)
    ensures Slashless(PathEscape(s))
  {
    if s != [] {
      EscapedSlashless(s[1..]);
      assert Slashless(EscapeByte(s[0]));
    }
  }

  /** The first slash of a header is the one after the bucket. */
  lemma HeaderSplits(e: Bytes, rest: Bytes)
    requires Slashless(e)
    ensures var h := e + [SLASH] + rest;
            !Slashless(h) && FirstSlash(h) == |e| && h[..|e|] == e && h[|e| + 1..] == rest
  {
    var h := e + [SLASH] + rest;
    assert h[|e|] == SLASH;
    assert forall j | 0 <= j < |e| :: h[j] == e[j];
  }

  /** Decoding a header gives back exactly the bucket and the key, for every
      pair of byte strings. */
  lemma HeaderRoundTrip(bucket: Bytes, key: Bytes)
    ensures DecodeHeader(HeaderOf(bucket, key)) == Some((bucket, key))
  {
    hide Unescape, PathEscape, Slashless, FirstSlash, Join, Split;
    var e, rest := PathEscape(bucket), Join(EscapeSegments(Split(key)));
    EscapedSlashless(bucket);
    HeaderSplits(e, rest);
    UnescapePathEscape(bucket);
    UnescapeJoined(Split(key));
    JoinSplit(key);
  }

  // ---------------------------------------------------------------- byte by byte

  /** The characters that stay as they are: the unreserved ones of section 2.3 of RFC
      3986 and those of the reserved ones that may stand in a path segment. */
  predicate Kept(b: Byte) {
    var c := b as char;
    'a' <= c <= 'z' || 'A' <= c <= 'Z' || '0' <= c <= '9' || c in "-_.~$&+:=@"
  }

  predicate UpperHex(b: Byte) {
    '0' <= b as char <= '9' || 'A' <= b as char <= 'F'
  }

  const HEX: string := "0123456789ABCDEF"

  function Triple(b: Byte): Bytes {
    [PERCENT, HEX[b / 16] as int, HEX[b % 16] as int]
  }

  function OneByte(b: Byte, slashes: bool): Bytes {
    if Kept(b) || (slashes && b == SLASH) then [b] else Triple(b)
  }

  /** Escaping without segments: each byte by itself, slashes staying where `slashes` says so. */
  function ByBytes(s: Bytes, slashes: bool): Bytes {
    if s == [] then [] else OneByte(s[0], slashes) + ByBytes(s[1..], slashes)
  }

  lemma PlainExactly(b: Byte)
    ensures Plain(b) <==> Kept(b)
    ensures EscapeByte(b) == OneByte(b, false)
    ensures b != SLASH ==> OneByte(b, true) == OneByte(b, false)
  {
    assert "-_.~$&+:=@"[0] == '-' && "-_.~$&+:=@"[1] == '_' && "-_.~$&+:=@"[2] == '.';
    HexExactly(b / 16);
    HexExactly(b % 16);
  }

  lemma HexExactly(v: int)
    requires 0 <= v < 16
    ensures HexDigit(v) == HEX[v] as int && UpperHex(HexDigit(v))
  {
  }

  lemma {:induction false} SegmentByBytes(s: Bytes, slashes: bool)
    requires !slashes || Slashless(s)
    ensures PathEscape(s) == ByBytes(s, slashes)
  {
    hide EscapeByte, OneByte;
    if s != [] {
      SegmentByBytes(s[1..], slashes);
      PlainExactly(s[0]);
    }
  }

  lemma {:induction false} ByBytesAppend(s: Bytes, t: Bytes, slashes: bool)
    ensures ByBytes(s + t, slashes) == ByBytes(s, slashes) + ByBytes(t, slashes)
  {
    hide OneByte;
    if s == [] {
      assert s + t == t;
    } else {
      ByBytesAppend(s[1..], t, slashes);
      assert (s + t)[1..] == s[1..] + t;
      Associative(OneByte(s[0], slashes), ByBytes(s[1..], slashes), ByBytes(t, slashes));
    }
  }

  lemma {:induction false} SegmentsByBytes(segs: seq<Bytes>)
    requires segs != [] && forall g :: g in segs ==> Slashless(g)
    ensures Join(EscapeSegments(segs)) == ByBytes(Join(segs), true)
  {
    hide PathEscape, Kept, Slashless;
    SegmentByBytes(segs[0], true);
    if |segs| > 1 {
      var rest := Join(segs[1..]);
      SegmentsByBytes(segs[1..]);
      assert EscapeSegments(segs)[1..] == EscapeSegments(segs[1..]);
      assert [SLASH][1..] == [];
      assert ByBytes([SLASH], true) == [SLASH];
      hide ByBytes;
      ByBytesAppend(segs[0] + [SLASH], rest, true);
      ByBytesAppend(segs[0], [SLASH], true);
    }
  }

  /** Escaping segment by segment is escaping byte by byte: kept characters and the
      slashes of the key stay, every other byte becomes a percent triple in upper-case
      hexadecimal. */
  lemma HeaderByBytes(bucket: Bytes, key: Bytes)
    ensures HeaderOf(bucket, key) == ByBytes(bucket, false) + [SLASH] + ByBytes(key, true)
  {
    hide PathEscape, Split, Join, Kept, Triple;
    SegmentByBytes(bucket, false);
    SegmentsByBytes(Split(key));
    JoinSplit(key);
  }

  /** Only slashes, kept characters and complete upper-case percent triples. */
  predicate CleanHeader(h: Bytes) {
    forall i :: 0 <= i < |h| ==> CleanAt(h, i)
  }

  predicate CleanAt(h: Bytes, i: nat)
    requires i < |h|
  {
    || h[i] == SLASH || Kept(h[i])
    || (h[i] == PERCENT && i + 2 < |h| && UpperHex(h[i + 1]) && UpperHex(h[i + 2]))
  }

  lemma {:induction false} ByBytesClean(s: Bytes, slashes: bool)
    ensures CleanHeader(ByBytes(s, slashes))
  {
    if s != [] {
      ByBytesClean(s[1..], slashes);
      HexExactly(s[0] / 16);
      HexExactly(s[0] % 16);
      HexKept(HEX[s[0] / 16] as int);
      HexKept(HEX[s[0] % 16] as int);
      hide Kept, UpperHex;
      CleanAppend(OneByte(s[0], slashes), ByBytes(s[1..], slashes));
    }
  }

  lemma HexKept(b: Byte)
    requires UpperHex(b)
    ensures Kept(b)
  {
  }

  lemma CleanAppend(a: Bytes, b: Bytes)
    requires CleanHeader(a) && CleanHeader(b)
    ensures CleanHeader(a + b)
  {
    hide Kept, UpperHex;
    var h := a + b;
    forall i | 0 <= i < |h|
      ensures CleanAt(h, i)
    {
      if i < |a| {
        assert CleanAt(a, i);
      } else {
        var j := i - |a|;
        assert CleanAt(b, j);
        assert j + 2 < |b| ==> h[i + 1] == b[j + 1] && h[i + 2] == b[j + 2];
      }
    }
  }

  /** Nothing else ever goes out in a header: no space, no query mark, no control or
      non-ASCII byte. A header has to be changed only for a byte that is not kept. */
  lemma HeaderClean(bucket: Bytes, key: Bytes)
    ensures CleanHeader(HeaderOf(bucket, key))
    ensures (forall b :: b in bucket ==> Kept(b)) && (forall b :: b in key ==> Kept(b) || b == SLASH) ==>
              HeaderOf(bucket, key) == bucket + [SLASH] + key
  {
    hide Kept, HeaderOf, ByBytes;
    HeaderByBytes(bucket, key);
    ByBytesClean(bucket, false);
    ByBytesClean(key, true);
    assert CleanHeader([SLASH]);
    CleanAppend(ByBytes(bucket, false), [SLASH]);
    CleanAppend(ByBytes(bucket, false) + [SLASH], ByBytes(key, true));
    if (forall b :: b in bucket ==> Kept(b)) && (forall b :: b in key ==> Kept(b) || b == SLASH) {
      ByBytesKeeps(bucket, false);
      ByBytesKeeps(key, true);
    }
  }

  lemma {:induction false} ByBytesKeeps(s: Bytes, slashes: bool)
    requires forall b :: b in s ==> Kept(b) || (slashes && b == SLASH)
    ensures ByBytes(s, slashes) == s
  {
    hide Kept, Triple;
    if s != [] {
      ByBytesKeeps(s[1..], slashes);
      assert s == [s[0]] + s[1..];
    }
  }

  lemma HeaderInjective(b1: Bytes, k1: Bytes, b2: Bytes, k2: Bytes)
    requires HeaderOf(b1, k1) == HeaderOf(b2, k2)
    ensures b1 == b2 && k1 == k2
  {
    hide DecodeHeader, HeaderOf;
    HeaderRoundTrip(b1, k1);
    HeaderRoundTrip(b2, k2);
  }

  /** Escapes the segments in place, as the program does, and joins them. */
  method CopySource(bucket: Bytes, key: Bytes) returns (h: Bytes)
    ensures h == HeaderOf(bucket, key)
    ensures DecodeHeader(h) == Some((bucket, key))
  {
    hide Unescape, PathEscape, DecodeHeader, Join, Split;
    var segs := Split(key);
    var segments := new Bytes[|segs|](i requires 0 <= i < |segs| => segs[i]);
    for i := 0 to segments.Length
      invariant forall j :: 0 <= j < i ==> segments[j] == PathEscape(segs[j])
      invariant forall j :: i <= j < |segs| ==> segments[j] == segs[j]
    {
      segments[i] := PathEscape(segments[i]);
    }
    assert segments[..] == EscapeSegments(segs);
    HeaderRoundTrip(bucket, key);
    h := PathEscape(bucket) + [SLASH] + Join(segments[..]);
  }
}
