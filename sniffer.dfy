/** The container sniffer: decides from the first decompressed bytes of a
    `.zst` file whether it holds a tar stream (a packed folder) or a single
    file. The offsets are those of the header block of the POSIX ustar
    interchange format (IEEE Std 1003.1, pax utility, "ustar Interchange
    Format"): name at [0,100), mode at [100,108), uid at [108,116), gid at
    [116,124), the magic "ustar" at [257,263). */
module Sniffer {
  import opened Base

  /** The bytes of "ustar". */
  const USTAR: seq<Byte> := [117, 115, 116, 97, 114]
  /** Size of a tar header block, and of the sample that is searched for the magic. */
  const BLOCK: int := 512
  /** Offset of the magic field in a ustar header block. */
  const MAGIC_OFFSET: int := 257

  /** The bytes `bytes.strip(b"\x00 ")` removes: NUL and space. */
  predicate IsPad(b: Byte) { b == 0 || b == 32 }

  /** The bytes of `b"01234567"`. */
  predicate IsOctalDigit(b: Byte) { 48 <= b <= 55 }

  predicate AllPad(s: seq<Byte>) { forall k :: 0 <= k < |s| ==> IsPad(s[k]) }

  predicate AllOctal(s: seq<Byte>) { forall k :: 0 <= k < |s| ==> IsOctalDigit(s[k]) }

  /** Leading NUL/space removed. */
  function LStrip(s: seq<Byte>): (r: seq<Byte>)
    ensures |r| <= |s| && r == s[|s| - |r|..]
    ensures AllPad(s[..|s| - |r|])
    ensures r != [] ==> !IsPad(r[0])
  {
    if s != [] && IsPad(s[0]) then
      var r := LStrip(s[1..]);
      assert s[1..][..|s| - 1 - |r|] == s[1..|s| - |r|];
      r
    else s
  }

  /** Trailing NUL/space removed. */
  function RStrip(s: seq<Byte>): (r: seq<Byte>)
    ensures |r| <= |s| && r == s[..|r|]
    ensures AllPad(s[|r|..])
    ensures r != [] ==> !IsPad(r[|r| - 1])
  {
    if s != [] && IsPad(s[|s| - 1]) then
      var r := RStrip(s[..|s| - 1]);
      assert s[|r|..] == s[..|s| - 1][|r|..] + [s[|s| - 1]];
      r
    else s
  }

  /** `r` is what remains of `s` once the padding runs before index `i` and
      after index `i + |r|` are cut off. */
  predicate StrippedAt(s: seq<Byte>, r: seq<Byte>, i: int)
  {
    0 <= i && i + |r| <= |s| && s[i..i + |r|] == r && AllPad(s[..i]) && AllPad(s[i + |r|..])
  }

  /** Python's `field.strip(b"\x00 ")`. */
  function Strip(s: seq<Byte>): (r: seq<Byte>)
    ensures r == [] <==> AllPad(s)
    ensures r != [] ==> !IsPad(r[0]) && !IsPad(r[|r| - 1])
    ensures exists i :: StrippedAt(s, r, i)
  {
    var l := LStrip(s);
    var r := RStrip(l);
    var i := |s| - |l|;
    assert s[i..i + |r|] == r;
    assert s[i + |r|..] == l[|r|..];
    assert StrippedAt(s, r, i);
    assert r == [] ==> AllPad(s) by {
      if r == [] {
        assert s == s[..i] + l;
      }
    }
    r
  }

  /** A mode/uid/gid field that the sniffer accepts once stripped: non-empty and
      made only of octal digits. */
  predicate OctalField(f: seq<Byte>)
  {
    |f| > 0 && AllOctal(f)
  }

  /** `f[i..j]` is a non-empty run of octal digits with only padding around it. */
  predicate OctalRun(f: seq<Byte>, i: int, j: int)
  {
    0 <= i < j <= |f| && AllPad(f[..i]) && AllOctal(f[i..j]) && AllPad(f[j..])
  }

  /** A field holding an octal numeral padded with NUL or space on either side.
      Padding between two digits, or a field of padding only, does not qualify. */
  ghost predicate PaddedOctal(f: seq<Byte>)
  {
    exists i, j :: OctalRun(f, i, j)
  }

  /** A stripped field of octal digits is a padded octal numeral. */
  lemma StripOctalSound(f: seq<Byte>)
    requires OctalField(Strip(f))
    ensures PaddedOctal(f)
  {
    var r := Strip(f);
    var i :| StrippedAt(f, r, i);
    assert OctalRun(f, i, i + |r|);
  }

  /** A padded octal numeral strips to exactly its digits. */
  lemma StripOctalComplete(f: seq<Byte>, a: int, b: int)
    requires OctalRun(f, a, b)
    ensures Strip(f) == f[a..b]
  {
    var r := Strip(f);
    assert IsOctalDigit(f[a..b][0]);
    var i :| StrippedAt(f, r, i);
    SameWindow(f, r, i, a, b);
  }

  /** A window whose ends are not padding and outside of which all is padding
      is the octal run itself. */
  lemma SameWindow(f: seq<Byte>, r: seq<Byte>, i: int, a: int, b: int)
    requires StrippedAt(f, r, i) && r != [] && !IsPad(r[0]) && !IsPad(r[|r| - 1])
    requires OctalRun(f, a, b)
    ensures i == a && i + |r| == b
  {
    var e := i + |r|;
    assert f[i] == r[0] && f[e - 1] == r[|r| - 1];
    OctalInRun(f, a, b, a);
    OctalInRun(f, a, b, b - 1);
    if i < a { PadInPrefix(f, a, i); }
    if a < i { PadInPrefix(f, i, a); }
    if e < b { OctalInRun(f, a, b, e); PadInSuffix(f, e, e); }
    if b < e { PadInSuffix(f, b, e - 1); }
  }

  lemma PadInPrefix(f: seq<Byte>, n: int, k: int)
    requires 0 <= k < n <= |f| && AllPad(f[..n])
    ensures IsPad(f[k])
  {
    assert f[..n][k] == f[k];
  }

  lemma OctalInRun(f: seq<Byte>, a: int, b: int, k: int)
    requires 0 <= a <= k < b <= |f| && AllOctal(f[a..b])
    ensures IsOctalDigit(f[k])
  {
    assert f[a..b][k - a] == f[k];
  }

  lemma PadInSuffix(f: seq<Byte>, n: int, k: int)
    requires 0 <= n <= k < |f| && AllPad(f[n..])
    ensures IsPad(f[k])
  {
    assert f[n..][k - n] == f[k];
  }

  /** Stripping then testing digits accepts exactly the padded octal numerals. */
  lemma StripOctalIff(f: seq<Byte>)
    ensures OctalField(Strip(f)) <==> PaddedOctal(f)
  {
    if OctalField(Strip(f)) {
      StripOctalSound(f);
    }
    if PaddedOctal(f) {
      var a, b :| OctalRun(f, a, b);
      StripOctalComplete(f, a, b);
      assert f[a..b] == f[..b][a..];
    }
  }

  /** Python's `data.find(bytes([b]))`: the first index holding `b`, or -1. */
  function Find(s: seq<Byte>, b: Byte): (r: int)
    ensures -1 <= r < |s|
    ensures r >= 0 ==> s[r] == b && forall k :: 0 <= k < r ==> s[k] != b
    ensures r == -1 ==> forall k :: 0 <= k < |s| ==> s[k] != b
  {
    if s == [] then -1
    else if s[0] == b then 0
    else
      var t := Find(s[1..], b);
      if t == -1 then -1 else t + 1
  }

  /** `data[:512]`. */
  function Sample(data: seq<Byte>): seq<Byte>
  {
    data[..Min(BLOCK, |data|)]
  }

  /** The sniffer's verdict on a decompressed sample: true means "tar archive". */
  function IsTarFormat(data: seq<Byte>): (r: bool)
    ensures Contains(Sample(data), USTAR) ==> r
    ensures r && !Contains(Sample(data), USTAR) ==> |data| >= BLOCK && Strip(data[100..108]) != []
  {
    if Contains(Sample(data), USTAR) then true
    else if |data| >= BLOCK then
      var mode := Strip(data[100..108]);
      var uid := Strip(data[108..116]);
      var gid := Strip(data[116..124]);
      if OctalField(mode) && OctalField(uid) && OctalField(gid) then true
      else
        var nameEnd := Find(data, 0);
        0 < nameEnd < 100 && |mode| > 0
    else false
  }

  /** The magic "ustar" occurs entirely inside the first 512 bytes. */
  ghost predicate HasMagic(data: seq<Byte>)
  {
    exists i :: MatchAt(data, USTAR, i) && i + |USTAR| <= BLOCK
  }

  /** The first NUL byte of the whole sample sits at index `k`. */
  ghost predicate FirstNulAt(data: seq<Byte>, k: int)
  {
    0 <= k < |data| && data[k] == 0 && forall j :: 0 <= j < k ==> data[j] != 0
  }

  /** The octal test on the mode, uid and gid fields of a full block. */
  ghost predicate OctalHeader(data: seq<Byte>)
    requires |data| >= BLOCK
  {
    PaddedOctal(data[100..108]) && PaddedOctal(data[108..116]) && PaddedOctal(data[116..124])
  }

  /** The fallback: a non-blank mode field and a first NUL inside the name field,
      after index 0. */
  ghost predicate NameFallback(data: seq<Byte>)
    requires |data| >= BLOCK
  {
    !AllPad(data[100..108]) && exists k :: 0 < k < 100 && FirstNulAt(data, k)
  }

  lemma SampleMagic(data: seq<Byte>)
    ensures Contains(Sample(data), USTAR) <==> HasMagic(data)
  {
    var s := Sample(data);
    if Contains(s, USTAR) {
      var i :| MatchAt(s, USTAR, i);
      assert data[i..i + |USTAR|] == s[i..i + |USTAR|];
      assert MatchAt(data, USTAR, i);
    }
    if HasMagic(data) {
      var i :| MatchAt(data, USTAR, i) && i + |USTAR| <= BLOCK;
      assert data[i..i + |USTAR|] == s[i..i + |USTAR|];
      assert MatchAt(s, USTAR, i);
    }
  }

  /** `data.find(b"\x00")` lands strictly between 0 and 100 exactly when the
      first NUL byte does. */
  lemma FindFirstNul(data: seq<Byte>)
    ensures 0 < Find(data, 0) < 100 <==> exists k :: 0 < k < 100 && FirstNulAt(data, k)
  {
    var e := Find(data, 0);
    if 0 < e < 100 {
      assert FirstNulAt(data, e);
    }
  }

  /** The complete decision, stated without the helper functions: a sample is
      classified as tar exactly when it carries the magic in its first block,
      or it is a full block whose mode, uid and gid fields are padded octal
      numerals, or it is a full block with a non-blank mode field whose first
      NUL byte lies strictly between index 0 and index 100. */
  lemma IsTarFormatIff(data: seq<Byte>)
    ensures IsTarFormat(data) <==>
      HasMagic(data) || (|data| >= BLOCK && (OctalHeader(data) || NameFallback(data)))
  {
    SampleMagic(data);
    if |data| >= BLOCK {
      StripOctalIff(data[100..108]);
      StripOctalIff(data[108..116]);
      StripOctalIff(data[116..124]);
      FindFirstNul(data);
    }
  }

  /** Any sample with "ustar" inside its first 512 bytes is a tar archive,
      whatever its length. */
  lemma MagicMeansTar(data: seq<Byte>, i: int)
    requires MatchAt(data, USTAR, i) && i + |USTAR| <= BLOCK
    ensures IsTarFormat(data)
  {
    IsTarFormatIff(data);
  }

  /** Every header block in the ustar (and pax) layout carries the magic at
      offset 257, so a sample that starts with such a block is a tar archive. */
  lemma UstarHeaderMeansTar(data: seq<Byte>)
    requires |data| >= MAGIC_OFFSET + |USTAR|
    requires data[MAGIC_OFFSET..MAGIC_OFFSET + |USTAR|] == USTAR
    ensures IsTarFormat(data)
  {
    MagicMeansTar(data, MAGIC_OFFSET);
  }

  /** A full block whose mode, uid and gid fields are padded octal numerals is
      a tar archive. */
  lemma OctalHeaderMeansTar(data: seq<Byte>)
    requires |data| >= BLOCK && OctalHeader(data)
    ensures IsTarFormat(data)
  {
    IsTarFormatIff(data);
  }

  /** Without the magic, a sample shorter than a block, or one whose mode field
      is blank, is a single file. */
  lemma SingleFileCases(data: seq<Byte>)
    requires !HasMagic(data)
    requires |data| < BLOCK || AllPad(data[100..108])
    ensures !IsTarFormat(data)
  {
    IsTarFormatIff(data);
    if |data| >= BLOCK {
      StripOctalIff(data[100..108]);
    }
  }

  /** Without the magic and with a failing octal test, only the first NUL byte
      decides: tar exactly when it lies strictly between 0 and 100 (and the
      mode field is not blank). */
  lemma FallbackDecides(data: seq<Byte>)
    requires !HasMagic(data) && |data| >= BLOCK && !OctalHeader(data)
    ensures IsTarFormat(data) <==> NameFallback(data)
  {
    IsTarFormatIff(data);
  }

  /** A sample of NUL bytes only, such as the end-of-archive blocks a tar
      writer emits for an archive with no members, is not tar: no magic, a
      blank mode field, and a first NUL at index 0. */
  lemma {:induction false} NulBlocksNotTar(data: seq<Byte>)
    requires forall k :: 0 <= k < |data| ==> data[k] == 0
    ensures !IsTarFormat(Sample(data))
  {
    var sample := Sample(data);
    forall i ensures !MatchAt(sample, USTAR, i) {
      if 0 <= i && i + |USTAR| <= |sample| {
        assert sample[i..i + |USTAR|][0] == sample[i] == 0;
      }
    }
    SingleFileCases(sample);
  }
}
