/** The string operations the modelled code uses: strip, lower, whitespace. */
module Text {

  /** Python's whitespace characters. */
  predicate IsSpace(c: char) {
    var n := c as int;
    || 9 <= n <= 13 || 28 <= n <= 32 || n == 0x85 || n == 0xA0 || n == 0x1680 || 0x2000 <= n <= 0x200A
    || n == 0x2028 || n == 0x2029 || n == 0x202F || n == 0x205F || n == 0x3000
  }

  function StripLeft(s: string): (r: string)
    ensures |r| <= |s| && (r != [] ==> !IsSpace(r[0]))
  {
    if s == [] || !IsSpace(s[0]) then s else StripLeft(s[1..])
  }

  function StripRight(s: string): (r: string)
    ensures |r| <= |s| && (r != [] ==> !IsSpace(r[|r| - 1]))
  {
    if s == [] || !IsSpace(s[|s| - 1]) then s else StripRight(s[..|s| - 1])
  }

  function Strip(s: string): string { StripRight(StripLeft(s)) }

  function LowerChar(c: char): char {
    if 'A' <= c <= 'Z' then (c as int + 32) as char else c
  }

  function Lower(s: string): string { seq(|s|, i requires 0 <= i < |s| => LowerChar(s[i])) }

  /** The position of the first c, or the length. */
  function IndexOf(s: string, c: char): (r: nat)
    ensures r <= |s| && c !in s[..r] && (r < |s| ==> s[r] == c)
  {
    if s == [] || s[0] == c then 0
    else
      assert s[..1 + IndexOf(s[1..], c)] == [s[0]] + s[1..][..IndexOf(s[1..], c)];
      1 + IndexOf(s[1..], c)
  }

  lemma {:induction false} IndexOfAfter(a: string, c: char, b: string)
    requires c !in a
    ensures IndexOf(a + [c] + b, c) == |a|
  {
    var s := a + [c] + b;
    if a == [] {
      assert s[0] == c;
    } else {
      assert s[0] == a[0] && s[1..] == a[1..] + [c] + b;
      IndexOfAfter(a[1..], c, b);
    }
  }

  predicate Solid(s: string) { forall i :: 0 <= i < |s| ==> !IsSpace(s[i]) }

  predicate Blank(s: string) { forall i :: 0 <= i < |s| ==> IsSpace(s[i]) }

  /** The length of the run of non-whitespace at the front. */
  function FirstSpace(s: string): (r: nat)
    ensures r <= |s| && Solid(s[..r]) && (r < |s| ==> IsSpace(s[r]))
    ensures s != [] && !IsSpace(s[0]) ==> r > 0
  {
    if s == [] || IsSpace(s[0]) then 0
    else
      assert s[..1 + FirstSpace(s[1..])] == [s[0]] + s[1..][..FirstSpace(s[1..])];
      1 + FirstSpace(s[1..])
  }

  /** str.split(): the maximal runs of non-whitespace. */
  function Words(s: string): seq<string>
    decreases |s|
  {
    var t := StripLeft(s);
    if t == [] then []
    else
      var n := FirstSpace(t);
      [t[..n]] + Words(t[n..])
  }

  lemma {:induction false} WordsAreSolid(s: string)
    ensures forall i :: 0 <= i < |Words(s)| ==> Words(s)[i] != [] && Solid(Words(s)[i])
    decreases |s|
  {
    var t := StripLeft(s);
    if t != [] { WordsAreSolid(t[FirstSpace(t)..]); }
  }

  lemma {:induction false} LeadingBlank(b: string, s: string)
    requires Blank(b)
    ensures StripLeft(b + s) == StripLeft(s) && Words(b + s) == Words(s)
  {
    if b == [] {
      assert b + s == s;
    } else {
      assert (b + s)[1..] == b[1..] + s;
      LeadingBlank(b[1..], s);
    }
  }

  /** Where the first run ends, when something blank or nothing follows. */
  lemma {:induction false} FirstSpaceOf(w: string, s: string)
    requires Solid(w) && (s == [] || IsSpace(s[0]))
    ensures FirstSpace(w + s) == |w|
  {
    if w == [] {
      assert w + s == s;
    } else {
      assert (w + s)[1..] == w[1..] + s;
      FirstSpaceOf(w[1..], s);
    }
  }

  lemma WordFirst(w: string, s: string)
    requires w != [] && Solid(w) && (s == [] || IsSpace(s[0]))
    ensures Words(w + s) == [w] + Words(s)
  {
    FirstSpaceOf(w, s);
    assert (w + s)[0] == w[0] && (w + s)[..|w|] == w && (w + s)[|w|..] == s;
  }

  /** Words separated by gaps; gaps[i] follows parts[i]. */
  function Spaced(parts: seq<string>, gaps: seq<string>): string
    requires |parts| == |gaps|
  {
    if parts == [] then "" else parts[0] + gaps[0] + Spaced(parts[1..], gaps[1..])
  }

  lemma WordsOfNothing()
    ensures Words([]) == []
  {}

  /** Splitting undoes joining, whatever whitespace was used. */
  lemma {:induction false} WordsOfSpaced(lead: string, parts: seq<string>, gaps: seq<string>)
    requires |parts| == |gaps| && Blank(lead)
    requires forall i :: 0 <= i < |parts| ==> parts[i] != [] && Solid(parts[i]) && Blank(gaps[i])
    requires forall i :: 0 <= i < |parts| - 1 ==> gaps[i] != []
    ensures Words(lead + Spaced(parts, gaps)) == parts
    decreases |parts|
  {
    hide Words, IsSpace;
    LeadingBlank(lead, Spaced(parts, gaps));
    if parts == [] {
      WordsOfNothing();
    } else {
      var rest := Spaced(parts[1..], gaps[1..]);
      assert parts[0] + gaps[0] + rest == parts[0] + (gaps[0] + rest);
      WordsOfSpaced(gaps[0], parts[1..], gaps[1..]);
      WordFirst(parts[0], gaps[0] + rest);
    }
  }

  lemma {:induction false} TrailingBlank(s: string, b: string)
    requires Blank(b)
    ensures Words(s + b) == Words(s)
    decreases |s|, 1
  {
    hide Words, IsSpace, StripLeft, LeadOf, Blank;
    var t := StripLeft(s);
    var lead := LeadOf(s);
    LeadSplits(s);
    assert s + b == lead + (t + b);
    LeadingBlank(lead, t + b);
    LeadingBlank(lead, t);
    if t == [] {
      assert t + b == b + [];
      LeadingBlank(b, []);
    } else {
      TrailingRun(t, b);
    }
  }

  lemma {:induction false} TrailingRun(t: string, b: string)
    requires Blank(b) && t != [] && !IsSpace(t[0])
    ensures Words(t + b) == Words(t)
    decreases |t|, 0
  {
    hide Words, IsSpace, FirstSpace;
    var n := FirstSpace(t);
    var w, rest := t[..n], t[n..];
    assert t == w + rest && t + b == w + (rest + b);
    TrailingBlank(rest, b);
    WordFirst(w, rest);
    WordFirst(w, rest + b);
  }

  /** The whitespace that StripLeft and StripRight drop. */
  function LeadOf(s: string): string { s[..|s| - |StripLeft(s)|] }

  function TailOf(s: string): string { s[|StripRight(s)|..] }

  lemma {:induction false} LeftIsSuffix(s: string)
    ensures StripLeft(s) == s[|s| - |StripLeft(s)|..]
    ensures forall i :: 0 <= i < |s| - |StripLeft(s)| ==> IsSpace(s[i])
  {
    hide IsSpace;
    if s != [] && IsSpace(s[0]) {
      LeftIsSuffix(s[1..]);
      assert forall i :: 0 < i < |s| ==> s[i] == s[1..][i - 1];
    }
  }

  lemma {:induction false} RightIsPrefix(s: string)
    ensures StripRight(s) == s[..|StripRight(s)|]
    ensures forall i :: |StripRight(s)| <= i < |s| ==> IsSpace(s[i])
  {
    hide IsSpace;
    if s != [] && IsSpace(s[|s| - 1]) {
      RightIsPrefix(s[..|s| - 1]);
      assert forall i :: 0 <= i < |s| - 1 ==> s[i] == s[..|s| - 1][i];
    }
  }

  lemma LeadSplits(s: string)
    ensures Blank(LeadOf(s)) && s == LeadOf(s) + StripLeft(s)
  {
    hide IsSpace, StripLeft;
    LeftIsSuffix(s);
  }

  lemma TailSplits(s: string)
    ensures Blank(TailOf(s)) && s == StripRight(s) + TailOf(s)
  {
    hide IsSpace, StripRight;
    RightIsPrefix(s);
  }

  /** Stripping before splitting changes nothing. */
  lemma WordsOfStripped(s: string)
    ensures Words(Strip(s)) == Words(s)
  {
    var t := StripLeft(s);
    LeadSplits(s);
    TailSplits(t);
    LeadingBlank(LeadOf(s), t);
    TrailingBlank(StripRight(t), TailOf(t));
  }

  // Stripping and lower case, described -------------------------------------------------

  /** s is blank + core + blank, and the core has no whitespace at either end. */
  predicate Trimmed(s: string, left: string, core: string, right: string) {
    s == left + core + right && Blank(left) && Blank(right) && (core != [] ==> !IsSpace(core[0]) && !IsSpace(core[|core| - 1]))
  }

  lemma {:induction false} RightBlank(s: string, b: string)
    requires Blank(b)
    ensures StripRight(s + b) == StripRight(s)
  {
    if b == [] {
      assert s + b == s;
    } else {
      assert (s + b)[..|s + b| - 1] == s + b[..|b| - 1];
      RightBlank(s, b[..|b| - 1]);
    }
  }

  lemma StripIsTrimmed(s: string)
    ensures Trimmed(s, LeadOf(s), Strip(s), TailOf(StripLeft(s)))
  {
    hide StripLeft, StripRight, LeadOf, TailOf, IsSpace, Blank, Trimmed;
    var t := StripLeft(s);
    LeadSplits(s);
    TailSplits(t);
    StripKeepsHead(t, TailOf(t));
    Joined(s, LeadOf(s), Strip(s), TailOf(t));
  }

  lemma Joined(s: string, left: string, core: string, right: string)
    requires s == left + (core + right) && Blank(left) && Blank(right)
    requires core != [] ==> !IsSpace(core[0]) && !IsSpace(core[|core| - 1])
    ensures Trimmed(s, left, core, right)
  {
    hide IsSpace;
    assert left + (core + right) == left + core + right;
  }

  lemma StripKeepsHead(t: string, tail: string)
    requires t == StripRight(t) + tail
    ensures StripRight(t) != [] ==> t != [] && StripRight(t)[0] == t[0]
  {
    hide StripRight;
    assert StripRight(t) != [] ==> (StripRight(t) + tail)[0] == StripRight(t)[0];
  }

  lemma StripIsCore(s: string, left: string, core: string, right: string)
    requires Trimmed(s, left, core, right)
    ensures core == Strip(s)
  {
    assert s == left + (core + right);
    LeadingBlank(left, core + right);
    if core == [] {
      assert core + right == right + [];
      LeadingBlank(right, []);
    } else {
      RightBlank(core, right);
    }
  }

  /** Strip yields the core, of which there is only one. */
  lemma StripExact(s: string, left: string, core: string, right: string)
    ensures Trimmed(s, left, core, right) ==> core == Strip(s)
    ensures Trimmed(s, LeadOf(s), Strip(s), TailOf(StripLeft(s)))
  {
    hide Trimmed, Strip;
    StripIsTrimmed(s);
    if Trimmed(s, left, core, right) { StripIsCore(s, left, core, right); }
  }

  /** The same letter, or the two cases of one. */
  predicate SameLetter(c: char, d: char) {
    || c == d
    || ('A' <= c <= 'Z' && d as int == c as int + ('a' as int - 'A' as int))
    || ('A' <= d <= 'Z' && c as int == d as int + ('a' as int - 'A' as int))
  }

  predicate SameLetters(s: string, t: string) { |s| == |t| && forall i :: 0 <= i < |s| ==> SameLetter(s[i], t[i]) }

  /** Lower has no upper-case letter left and differs from its argument only in case. */
  lemma LowerExact(s: string)
    ensures SameLetters(s, Lower(s)) && forall i :: 0 <= i < |Lower(s)| ==> !('A' <= Lower(s)[i] <= 'Z')
  {}

  lemma LowerAgrees(s: string, t: string)
    ensures Lower(s) == Lower(t) <==> SameLetters(s, t)
  {
    if Lower(s) == Lower(t) {
      forall i | 0 <= i < |s| ensures SameLetter(s[i], t[i]) {
        assert LowerChar(s[i]) == Lower(s)[i] == Lower(t)[i] == LowerChar(t[i]);
      }
      assert |s| == |Lower(s)| == |Lower(t)| == |t|;
    }
    if SameLetters(s, t) {
      forall i | 0 <= i < |s| ensures Lower(s)[i] == Lower(t)[i] { assert SameLetter(s[i], t[i]); }
    }
  }

  /** The whitespace characters, one by one. */
  lemma SpacesListed(c: char)
    ensures IsSpace(c) <==>
      c as int in {9, 10, 11, 12, 13, 28, 29, 30, 31, 32, 133, 160, 5760, 8192, 8193, 8194, 8195, 8196, 8197, 8198, 8199, 8200,
                   8201, 8202, 8232, 8233, 8239, 8287, 12288}
  {}
}
