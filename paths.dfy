/** Path strings as the engine builds and tests them, and the sidecar digest
    file's text. Paths are plain strings; `Join` keeps pathlib's one rule that
    matters to the guard (an absolute member replaces the root) and does not
    normalise "." segments, doubled or trailing slashes. */
module Paths {
  import opened Base

  const SEP: char := '/'

  predicate IsAbsolute(p: string) { |p| > 0 && p[0] == SEP }

  /** `str(root / member)` on the root's text as written, without normalisation. */
  function Join(root: string, member: string): (r: string)
    ensures IsAbsolute(member) ==> r == member
    ensures !IsAbsolute(member) ==> |r| == |root| + 1 + |member| && r[..|root|] == root && r[|root|] == SEP && r[|root| + 1..] == member
  {
    if IsAbsolute(member) then member else root + [SEP] + member
  }

  /** The traversal check of the extraction loops:
      `str(root / member).startswith(str(root))`. */
  predicate PathGuard(root: string, member: string)
    ensures !IsAbsolute(member) ==> PathGuard(root, member)
  {
    StartsWith(Join(root, member), root)
  }

  /** What the textual check gives on the root's text as written (pathlib's
      collapse of a "." root is not modelled): every relative member passes
      (whatever ".." segments it holds), and an absolute member passes exactly
      when its own text begins with the root's text. */
  lemma PathGuardIff(root: string, member: string)
    ensures PathGuard(root, member) <==> !IsAbsolute(member) || StartsWith(member, root)
  {
    if !IsAbsolute(member) {
      assert (root + [SEP] + member)[..|root|] == root;
    }
  }

  /** A member that climbs out of the root with ".." is not rejected. */
  lemma TraversalPassesGuard(root: string)
    ensures PathGuard(root, "../evil.txt")
  {
    PathGuardIff(root, "../evil.txt");
  }

  /** An absolute member naming a sibling directory whose name extends the
      root's name is not rejected either. */
  lemma SiblingPassesGuard(root: string, rest: string)
    requires IsAbsolute(root)
    ensures PathGuard(root, root + "side/" + rest)
  {
    var m := root + "side/" + rest;
    assert m[0] == root[0];
    assert m[..|root|] == root;
    PathGuardIff(root, m);
  }

  /** A relative member lands at the root, a separator, then the member. */
  lemma RelativeTargetUnderRoot(root: string, member: string)
    requires !IsAbsolute(member)
    ensures Join(root, member) == root + [SEP] + member
    ensures StartsWith(Join(root, member), root + [SEP])
  {
    assert (root + [SEP] + member)[..|root| + 1] == root + [SEP];
  }

  /** `str(Path(*parts))` for a relative path given by its segments. */
  function Render(parts: seq<string>): string
  {
    if parts == [] then ""
    else if |parts| == 1 then parts[0]
    else parts[0] + [SEP] + Render(parts[1..])
  }

  /** The rendering of a path with a leading segment is that segment, a
      separator and the rest. */
  lemma RenderCons(head: string, rest: seq<string>)
    requires rest != []
    ensures Render([head] + rest) == head + [SEP] + Render(rest)
  {
    assert ([head] + rest)[1..] == rest;
  }

  /** pathlib's `.name`: the text after the last separator. */
  function Name(p: string): (r: string)
    ensures SEP !in r
    ensures |r| <= |p| && r == p[|p| - |r|..]
    ensures |r| < |p| ==> p[|p| - |r| - 1] == SEP
  {
    if p == [] then []
    else if p[|p| - 1] == SEP then []
    else
      var r := Name(p[..|p| - 1]);
      assert p[..|p| - 1][|p| - 1 - |r|..] + [p[|p| - 1]] == p[|p| - |r| - 1..];
      r + [p[|p| - 1]]
  }

  /** `output.with_suffix(output.suffix + ".sha256")`: the digest sits next to
      the archive, under the archive's name with ".sha256" appended. */
  function SidecarPath(output: string): (r: string)
    ensures |r| > |output| && r[..|output|] == output
  {
    output + ".sha256"
  }

  /** The sidecar's contents: `f"{digest}  {name}\n"`. */
  function SidecarText(digest: string, name: string): (r: string)
    ensures |r| == |digest| + |name| + 3 && r[..|digest|] == digest && r[|r| - 1] == '\n'
  {
    digest + "  " + name + "\n"
  }

  /** The characters Python's `str.split()` splits on. */
  predicate IsSpace(c: char)
  {
    var n := c as int;
    n == 0x20 || 0x09 <= n <= 0x0D || 0x1C <= n <= 0x1F || n == 0x85 || n == 0xA0
    || n == 0x1680 || 0x2000 <= n <= 0x200A || n == 0x2028 || n == 0x2029
    || n == 0x202F || n == 0x205F || n == 0x3000
  }

  predicate NoSpace(s: string) { forall k :: 0 <= k < |s| ==> !IsSpace(s[k]) }

  predicate AllSpace(s: string) { forall k :: 0 <= k < |s| ==> IsSpace(s[k]) }

  /** Leading whitespace removed. */
  function SkipSpace(s: string): (r: string)
    ensures |r| <= |s| && r == s[|s| - |r|..]
    ensures AllSpace(s[..|s| - |r|])
    ensures r != [] ==> !IsSpace(r[0])
  {
    if s != [] && IsSpace(s[0]) then
      var r := SkipSpace(s[1..]);
      assert s[1..][..|s| - 1 - |r|] == s[1..|s| - |r|];
      r
    else s
  }

  /** The longest prefix free of whitespace. */
  function TakeWord(s: string): (r: string)
    ensures |r| <= |s| && r == s[..|r|] && NoSpace(r)
    ensures |r| < |s| ==> IsSpace(s[|r|])
  {
    if s != [] && !IsSpace(s[0]) then [s[0]] + TakeWord(s[1..]) else []
  }

  /** `r` is the first whitespace-delimited word of `s`, starting at `i`. */
  predicate FirstWordAt(s: string, r: string, i: int)
  {
    0 <= i && i + |r| <= |s| && s[i..i + |r|] == r && AllSpace(s[..i])
    && (i + |r| < |s| ==> IsSpace(s[i + |r|]))
  }

  /** `text.split()[0]`, or None where that raises IndexError (no word at all). */
  function FirstToken(text: string): (r: Option<string>)
    ensures r.None? <==> AllSpace(text)
    ensures r.Some? ==> r.value != [] && NoSpace(r.value) && exists i :: FirstWordAt(text, r.value, i)
  {
    var t := SkipSpace(text);
    if t == [] then None
    else
      var w := TakeWord(t);
      var i := |text| - |t|;
      assert text[i..i + |w|] == w;
      assert FirstWordAt(text, w, i);
      Some(w)
  }

  /** Reading the sidecar back: its first whitespace-delimited token is the
      digest that was written, for any digest free of whitespace (a hex
      digest is) and any file name. */
  lemma {:induction false} SidecarRoundTrip(digest: string, name: string)
    requires digest != [] && NoSpace(digest)
    ensures FirstToken(SidecarText(digest, name)) == Some(digest)
  {
    var text := SidecarText(digest, name);
    assert SkipSpace(text) == text;
    TakeWordPrefix(digest, text);
  }

  /** A word followed by whitespace is taken whole. */
  lemma {:induction false} TakeWordPrefix(w: string, s: string)
    requires NoSpace(w) && |w| < |s| && s[..|w|] == w && IsSpace(s[|w|])
    ensures TakeWord(s) == w
    decreases |w|
  {
    if w != [] {
      TakeWordPrefix(w[1..], s[1..]);
    }
  }
}
