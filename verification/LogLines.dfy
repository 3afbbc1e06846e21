/** Audit-log lines: the generator's printer, the listener's parser, and the event made from a line. */
module LogLines {
  import opened Options
  import opened Text
  import opened Ranking
  import opened GraphModel

  /** The five fields of an audit line. */
  datatype Audit = Audit(timestamp: string, user: string, action: string, target: string, app: string)

  // Printing -----------------------------------------------------------------------

  function BuildLogLine(a: Audit): string {
    a.timestamp + " user=" + a.user + " action=" + a.action + " object=" + a.target + " app=" + a.app
  }

  // Parsing ------------------------------------------------------------------------

  function Token(key: string, value: string): string { key + "=" + value }

  predicate HasEquals(token: string) { '=' in token }

  /** What stands before the first '=', and what stands after it. */
  function KeyOf(token: string): string { token[..IndexOf(token, '=')] }

  function ValueOf(token: string): string
    requires HasEquals(token)
  {
    assert token[..|token|] == token;
    token[IndexOf(token, '=') + 1..]
  }

  /** The dictionary after reading the words, or None if one of them is no key=value token. */
  function Fields(parts: seq<string>): Option<map<string, string>>
    requires parts != []
  {
    if |parts| == 1 then Some(map["timestamp" := parts[0]])
    else
      var before, token := Fields(parts[..|parts| - 1]), parts[|parts| - 1];
      if before.None? || !HasEquals(token) then None else Some(before.value[KeyOf(token) := ValueOf(token)])
  }

  predicate HasRequired(fields: map<string, string>) {
    "user" in fields && "action" in fields && "object" in fields && "app" in fields
  }

  /** The listener's answer for a line that splits into these words. */
  function FromWords(parts: seq<string>): Option<map<string, string>> {
    if |parts| < 5 || Fields(parts).None? || !HasRequired(Fields(parts).value) then None else Fields(parts)
  }

  function Parsed(line: string): Option<map<string, string>> { FromWords(Words(Strip(line))) }

  lemma {:induction false} FieldsNeedsAll(parts: seq<string>, n: nat)
    requires 0 < n <= |parts| && Fields(parts).Some?
    ensures Fields(parts[..n]).Some?
    ensures forall i :: 1 <= i < |parts| ==> HasEquals(parts[i])
  {
    if |parts| > 1 {
      var front := parts[..|parts| - 1];
      FieldsNeedsAll(front, if n < |parts| then n else n - 1);
      if n < |parts| { assert front[..n] == parts[..n]; } else { assert parts[..n] == parts; }
      assert forall i :: 1 <= i < |front| ==> parts[i] == front[i];
    } else {
      assert parts[..n] == parts;
    }
  }

  /** A word after the first that begins with the given text. */
  predicate HasToken(parts: seq<string>, head: string) { exists i :: 1 <= i < |parts| && head <= parts[i] }

  lemma KeyIsHead(token: string, key: string)
    requires '=' in token && '=' !in key
    ensures KeyOf(token) == key <==> key + "=" <= token
  {
    var k := IndexOf(token, '=');
    if KeyOf(token) == key {
      assert token[..|key| + 1] == key + "=";
    }
    if key + "=" <= token {
      assert token == key + "=" + token[|key| + 1..];
      IndexOfAfter(key, '=', token[|key| + 1..]);
    }
  }

  lemma TokenHasKey(parts: seq<string>, key: string)
    requires '=' !in key && forall i :: 1 <= i < |parts| ==> '=' in parts[i]
    ensures HasToken(parts, key + "=") <==> exists i :: Keyed(parts, i, key)
  {
    hide KeyOf;
    forall i | 1 <= i < |parts| ensures KeyOf(parts[i]) == key <==> key + "=" <= parts[i] { KeyIsHead(parts[i], key); }
    if i :| 1 <= i < |parts| && key + "=" <= parts[i] { assert Keyed(parts, i, key); }
    if i :| Keyed(parts, i, key) { assert key + "=" <= parts[i]; }
  }

  lemma ParseSucceeds(parts: seq<string>)
    requires parts != []
    ensures FromWords(parts).Some? <==>
              && |parts| >= 5 && (forall i :: 1 <= i < |parts| ==> '=' in parts[i])
              && HasToken(parts, "user=") && HasToken(parts, "action=") && HasToken(parts, "object=") && HasToken(parts, "app=")
  {
    hide KeyOf, ValueOf, Fields, HasToken, Keyed;
    FieldsExact(parts);
    if forall i :: 1 <= i < |parts| ==> '=' in parts[i] {
      TokenHasKey(parts, "user");
      TokenHasKey(parts, "action");
      TokenHasKey(parts, "object");
      TokenHasKey(parts, "app");
      assert "user" + "=" == "user=" && "action" + "=" == "action=" && "object" + "=" == "object=" && "app" + "=" == "app=";
    }
  }

  method ParseLogLine(line: string) returns (fields: Option<map<string, string>>)
    ensures fields == Parsed(line)
    ensures var parts := Words(line);
            fields.Some? <==>
              && |parts| >= 5 && (forall i :: 1 <= i < |parts| ==> '=' in parts[i])
              && HasToken(parts, "user=") && HasToken(parts, "action=") && HasToken(parts, "object=") && HasToken(parts, "app=")
  {
    WordsOfStripped(line);
    if |Words(line)| > 0 { ParseSucceeds(Words(line)); }
    hide HasToken;
    hide Words, KeyOf, ValueOf, HasEquals;
    var parts := Words(Strip(line));
    if |parts| < 5 {
      return None;
    }
    var found := map["timestamp" := parts[0]];
    for i := 1 to |parts|
      invariant Fields(parts[..i]) == Some(found)
    {
      assert parts[..i + 1][..i] == parts[..i];
      if !HasEquals(parts[i]) {
        if Fields(parts).Some? { FieldsNeedsAll(parts, i); }
        return None;
      }
      found := found[KeyOf(parts[i]) := ValueOf(parts[i])];
    }
    assert parts[..|parts|] == parts;
    if !HasRequired(found) {
      return None;
    }
    fields := Some(found);
  }

  // What a parse holds ---------------------------------------------------------------

  predicate Keyed(parts: seq<string>, i: int, key: string) { 1 <= i < |parts| && KeyOf(parts[i]) == key }

  ghost predicate LastKeyed(parts: seq<string>, i: int, key: string) {
    Keyed(parts, i, key) && forall j :: i < j < |parts| ==> !Keyed(parts, j, key)
  }

  /** Every key maps to its last token's value; the timestamp is the first word unless a token overrides it. */
  lemma {:induction false} FieldsExact(parts: seq<string>)
    requires parts != []
    ensures Fields(parts).Some? <==> forall i :: 1 <= i < |parts| ==> HasEquals(parts[i])
    ensures Fields(parts).Some? ==>
              var m := Fields(parts).value;
              && (forall key :: key in m <==> key == "timestamp" || exists i :: Keyed(parts, i, key))
              && (forall key, i :: LastKeyed(parts, i, key) ==> m[key] == ValueOf(parts[i]))
              && ((forall i :: !Keyed(parts, i, "timestamp")) ==> m["timestamp"] == parts[0])
  {
    hide KeyOf, ValueOf, HasEquals;
    if |parts| > 1 {
      var front, n := parts[..|parts| - 1], |parts| - 1;
      FieldsExact(front);
      assert forall i :: 1 <= i < n ==> parts[i] == front[i];
      forall i, key ensures Keyed(parts, i, key) <==> Keyed(front, i, key) || (i == n && KeyOf(parts[n]) == key) {}
      if Fields(parts).Some? {
        var m, before := Fields(parts).value, Fields(front).value;
        forall key ensures key in m <==> key == "timestamp" || exists i :: Keyed(parts, i, key) {
          if KeyOf(parts[n]) == key { assert Keyed(parts, n, key); }
          if i :| Keyed(front, i, key) { assert Keyed(parts, i, key); }
        }
        forall key, i | LastKeyed(parts, i, key) ensures m[key] == ValueOf(parts[i]) {
          if i < n {
            assert !Keyed(parts, n, key);
            assert LastKeyed(front, i, key);
          }
        }
        if forall i :: !Keyed(parts, i, "timestamp") {
          assert !Keyed(parts, n, "timestamp");
          forall i ensures !Keyed(front, i, "timestamp") { assert !Keyed(parts, i, "timestamp"); }
        }
      }
    }
  }

  /** No two tokens have the same key. */
  ghost predicate KeysDiffer(parts: seq<string>) {
    forall i, j :: 1 <= i < j < |parts| ==> KeyOf(parts[i]) != KeyOf(parts[j])
  }

  lemma Tail(parts: seq<string>)
    requires parts != []
    ensures forall i :: 1 <= i < |parts| ==> parts[1..][i - 1] == parts[i]
    ensures forall i :: 0 <= i < |parts| - 1 ==> parts[1..][i] == parts[i + 1]
  {}

  /** Tokens in another order: each is still there, still alone with its key. */
  lemma Rearranged(parts: seq<string>, other: seq<string>, key: string, i: int) returns (j: int)
    requires parts != [] && other != [] && multiset(parts[1..]) == multiset(other[1..])
    requires KeysDiffer(parts) && Keyed(parts, i, key)
    ensures LastKeyed(other, j, key) && other[j] == parts[i]
  {
    hide KeyOf;
    Tail(parts);
    Tail(other);
    NoDuplicatesPermutes(parts[1..], other[1..]);
    assert parts[1..][i - 1] in multiset(other[1..]);
    var k :| 0 <= k < |other[1..]| && other[1..][k] == parts[i];
    j := k + 1;
    forall l | j < l < |other| ensures !Keyed(other, l, key) {
      assert other[1..][l - 1] in multiset(parts[1..]);
      var m :| 0 <= m < |parts[1..]| && parts[1..][m] == other[l];
      assert parts[m + 1] == other[l];
      assert other[1..][k] != other[1..][l - 1];
      assert m + 1 != i;
      assert KeyOf(parts[m + 1]) != KeyOf(parts[i]);
    }
  }

  lemma SameFields(parts: seq<string>, other: seq<string>)
    requires parts != [] && other != [] && parts[0] == other[0] && multiset(parts[1..]) == multiset(other[1..])
    requires KeysDiffer(parts) && Fields(parts).Some? && Fields(other).Some?
    ensures forall key :: key in Fields(parts).value ==> key in Fields(other).value && Fields(other).value[key] == Fields(parts).value[key]
  {
    hide KeyOf, ValueOf, HasEquals, Fields;
    FieldsExact(parts);
    FieldsExact(other);
    var m, n := Fields(parts).value, Fields(other).value;
    forall key | key in m ensures key in n && n[key] == m[key] {
      if i :| Keyed(parts, i, key) {
        var j := Rearranged(parts, other, key, i);
        assert LastKeyed(parts, i, key);
        assert Keyed(other, j, key);
      } else {
        forall i ensures !Keyed(other, i, key) {
          if Keyed(other, i, key) { NoneRearranged(parts, other, key, i); }
        }
      }
    }
  }

  lemma NoneRearranged(parts: seq<string>, other: seq<string>, key: string, i: int)
    requires parts != [] && other != [] && multiset(parts[1..]) == multiset(other[1..]) && Keyed(other, i, key)
    ensures exists j :: Keyed(parts, j, key)
  {
    hide KeyOf;
    Tail(parts);
    Tail(other);
    assert other[1..][i - 1] in multiset(parts[1..]);
    var k :| 0 <= k < |parts[1..]| && parts[1..][k] == other[i];
    assert Keyed(parts, k + 1, key);
  }

  /** Token order does not matter when no key is repeated. */
  lemma OrderIrrelevant(parts: seq<string>, other: seq<string>)
    requires parts != [] && other != [] && parts[0] == other[0] && multiset(parts[1..]) == multiset(other[1..])
    requires KeysDiffer(parts)
    ensures FromWords(parts) == FromWords(other)
  {
    hide KeyOf, ValueOf, HasEquals, Fields, KeysDiffer;
    AllTokens(parts, other);
    AllTokens(other, parts);
    assert |multiset(parts[1..])| == |parts| - 1 && |multiset(other[1..])| == |other| - 1;
    if Fields(parts).Some? && Fields(other).Some? {
      SameFields(parts, other);
      StillDiffer(parts, other);
      SameFields(other, parts);
      assert Fields(parts).value == Fields(other).value;
    }
  }

  lemma AllTokens(parts: seq<string>, other: seq<string>)
    requires parts != [] && other != [] && multiset(parts[1..]) == multiset(other[1..])
    ensures Fields(parts).Some? ==> Fields(other).Some?
  {
    hide KeyOf, ValueOf, HasEquals, Fields;
    FieldsExact(parts);
    FieldsExact(other);
    Tail(parts);
    Tail(other);
    if Fields(parts).Some? {
      forall i | 1 <= i < |other| ensures HasEquals(other[i]) {
        assert other[1..][i - 1] in multiset(parts[1..]);
        var k :| 0 <= k < |parts[1..]| && parts[1..][k] == other[i];
        assert HasEquals(parts[k + 1]);
      }
    }
  }

  lemma StillDiffer(parts: seq<string>, other: seq<string>)
    requires parts != [] && other != [] && multiset(parts[1..]) == multiset(other[1..]) && KeysDiffer(parts)
    ensures KeysDiffer(other)
  {
    hide KeyOf;
    forall i, j | 1 <= i < j < |other| ensures KeyOf(other[i]) != KeyOf(other[j]) {
      var key := KeyOf(other[i]);
      NoneRearranged(parts, other, key, i);
      var k :| Keyed(parts, k, key);
      var l := Rearranged(parts, other, key, k);
      StandsOnce(parts, other, i, l, key);
      assert !Keyed(other, j, key);
    }
  }

  /** At most one token of the rearrangement has the key, so what is last is first. */
  lemma StandsOnce(parts: seq<string>, other: seq<string>, i: int, l: int, key: string)
    requires parts != [] && other != [] && multiset(parts[1..]) == multiset(other[1..]) && KeysDiffer(parts)
    requires Keyed(other, i, key) && LastKeyed(other, l, key)
    ensures i == l
  {
    hide KeyOf;
    Tail(parts);
    Tail(other);
    NoDuplicatesPermutes(parts[1..], other[1..]);
    assert other[1..][i - 1] in multiset(parts[1..]) && other[1..][l - 1] in multiset(parts[1..]);
    var a :| 0 <= a < |parts[1..]| && parts[1..][a] == other[i];
    var b :| 0 <= b < |parts[1..]| && parts[1..][b] == other[l];
    assert Keyed(parts, a + 1, key) && Keyed(parts, b + 1, key);
    assert a == b;
  }

  /** Nor does the whitespace around and between the words. */
  lemma SpacingIrrelevant(lead: string, parts: seq<string>, gaps: seq<string>)
    requires |parts| == |gaps| && Blank(lead)
    requires forall i :: 0 <= i < |parts| ==> parts[i] != [] && Solid(parts[i]) && Blank(gaps[i])
    requires forall i :: 0 <= i < |parts| - 1 ==> gaps[i] != []
    ensures Parsed(lead + Spaced(parts, gaps)) == FromWords(parts)
  {
    hide Words, FromWords, Spaced;
    WordsOfStripped(lead + Spaced(parts, gaps));
    WordsOfSpaced(lead, parts, gaps);
  }

  // Round trip ---------------------------------------------------------------------------

  function AsFields(a: Audit): map<string, string> {
    map["timestamp" := a.timestamp, "user" := a.user, "action" := a.action, "object" := a.target, "app" := a.app]
  }

  function PartsOf(a: Audit): seq<string> {
    [a.timestamp, Token("user", a.user), Token("action", a.action), Token("object", a.target), Token("app", a.app)]
  }

  predicate AllSolid(a: Audit) { Solid(a.timestamp) && Solid(a.user) && Solid(a.action) && Solid(a.target) && Solid(a.app) }

  lemma TokenParts(key: string, value: string)
    requires '=' !in key
    ensures HasEquals(Token(key, value)) && KeyOf(Token(key, value)) == key && ValueOf(Token(key, value)) == value
  {
    IndexOfAfter(key, '=', value);
    assert Token(key, value)[|key|] == '=';
  }

  lemma FieldsSnoc(parts: seq<string>, key: string, value: string)
    requires parts != [] && '=' !in key && Fields(parts).Some?
    ensures Fields(parts + [Token(key, value)]) == Some(Fields(parts).value[key := value])
  {
    hide HasEquals, KeyOf, ValueOf, Token;
    TokenParts(key, value);
    assert (parts + [Token(key, value)])[..|parts|] == parts;
  }

  lemma FieldsOfParts(a: Audit)
    ensures Fields(PartsOf(a)) == Some(AsFields(a))
  {
    hide Token, Fields;
    var p0 := [a.timestamp];
    TimestampOnly(a.timestamp);
    FieldsSnoc(p0, "user", a.user);
    var p1 := p0 + [Token("user", a.user)];
    FieldsSnoc(p1, "action", a.action);
    var p2 := p1 + [Token("action", a.action)];
    FieldsSnoc(p2, "object", a.target);
    var p3 := p2 + [Token("object", a.target)];
    FieldsSnoc(p3, "app", a.app);
    assert PartsOf(a) == p3 + [Token("app", a.app)];
  }

  lemma TimestampOnly(t: string)
    ensures Fields([t]) == Some(map["timestamp" := t])
  {}

  lemma LineIsSpaced(a: Audit)
    ensures BuildLogLine(a) == Spaced(PartsOf(a), [" ", " ", " ", " ", ""])
  {
    hide Spaced, Token;
    var p := PartsOf(a);
    SpacedFive(p[0], p[1], p[2], p[3], p[4]);
    assert p == [p[0], p[1], p[2], p[3], p[4]];
    SameLine(a);
  }

  lemma SpacedFive(a: string, b: string, c: string, d: string, e: string)
    ensures Spaced([a, b, c, d, e], [" ", " ", " ", " ", ""]) == a + " " + (b + " " + (c + " " + (d + " " + (e + ""))))
  {
    hide Spaced;
    SpacedCons(e, "", [], []);
    SpacedCons(d, " ", [e], [""]);
    SpacedCons(c, " ", [d, e], [" ", ""]);
    SpacedCons(b, " ", [c, d, e], [" ", " ", ""]);
    SpacedCons(a, " ", [b, c, d, e], [" ", " ", " ", ""]);
    SpacedNothing();
    assert [e] + [] == [e] && [""] + [] == [""] && e + "" + "" == e + "";
    assert [d] + [e] == [d, e] && [c] + [d, e] == [c, d, e] && [b] + [c, d, e] == [b, c, d, e] && [a] + [b, c, d, e] == [a, b, c, d, e];
    assert [" "] + [""] == [" ", ""] && [" "] + [" ", ""] == [" ", " ", ""] && [" "] + [" ", " ", ""] == [" ", " ", " ", ""];
    assert [" "] + [" ", " ", " ", ""] == [" ", " ", " ", " ", ""];
  }

  lemma SpacedNothing()
    ensures Spaced([], []) == ""
  {}

  lemma SpacedCons(part: string, gap: string, parts: seq<string>, gaps: seq<string>)
    requires |parts| == |gaps|
    ensures Spaced([part] + parts, [gap] + gaps) == part + gap + Spaced(parts, gaps)
  {
    assert ([part] + parts)[1..] == parts && ([gap] + gaps)[1..] == gaps;
  }

  lemma SameLine(a: Audit)
    ensures BuildLogLine(a) == a.timestamp + " " + (Token("user", a.user) + " " + (Token("action", a.action) + " "
                               + (Token("object", a.target) + " " + (Token("app", a.app) + ""))))
  {
    hide Token;
    Spaces("user", a.user);
    Spaces("action", a.action);
    Spaces("object", a.target);
    Spaces("app", a.app);
    Grouped(a.timestamp, " ", Token("user", a.user), Token("action", a.action), Token("object", a.target), Token("app", a.app));
    assert " user=" == " " + "user" + "=" && " action=" == " " + "action" + "=";
    assert " object=" == " " + "object" + "=" && " app=" == " " + "app" + "=";
    Regroup(a.timestamp, " user=", a.user, " action=", a.action, " object=", a.target, " app=", a.app);
  }

  lemma Spaces(key: string, value: string)
    ensures " " + key + "=" + value == " " + Token(key, value)
  {}

  lemma Regroup(t: string, a: string, b: string, c: string, d: string, e: string, f: string, g: string, h: string)
    ensures t + a + b + c + d + e + f + g + h == t + (a + b) + (c + d) + (e + f) + (g + h)
  {
    assert t + a + b == t + (a + b);
    var x := t + (a + b);
    assert x + c + d == x + (c + d);
    var y := x + (c + d);
    assert y + e + f == y + (e + f);
    var z := y + (e + f);
    assert z + g + h == z + (g + h);
  }

  lemma Grouped(t: string, s: string, a: string, b: string, c: string, d: string)
    ensures t + (s + a) + (s + b) + (s + c) + (s + d) == t + s + (a + s + (b + s + (c + s + (d + ""))))
  {
    var y := c + s + (d + "");
    assert c + (s + d) == y;
    var x := b + s + y;
    assert b + (s + c) + (s + d) == x;
    assert a + (s + b) + (s + c) + (s + d) == a + s + x;
    assert t + (s + a) + (s + b) + (s + c) + (s + d) == t + s + (a + (s + b) + (s + c) + (s + d));
  }

  lemma WordsOfLine(a: Audit)
    requires AllSolid(a)
    ensures Words(Strip(BuildLogLine(a))) == if a.timestamp != "" then PartsOf(a) else PartsOf(a)[1..]
  {
    hide Words, Spaced, Strip, BuildLogLine;
    var p, gaps := PartsOf(a), [" ", " ", " ", " ", ""];
    WordsOfStripped(BuildLogLine(a));
    LineIsSpaced(a);
    PartsSolid(a);
    if a.timestamp != "" {
      WordsOfSpaced("", p, gaps);
      assert "" + Spaced(p, gaps) == Spaced(p, gaps);
    } else {
      WordsOfSpaced(" ", p[1..], gaps[1..]);
      SpacedHead(p, gaps);
      assert "" + " " + Spaced(p[1..], gaps[1..]) == " " + Spaced(p[1..], gaps[1..]);
    }
  }

  lemma SpacedHead(parts: seq<string>, gaps: seq<string>)
    requires |parts| == |gaps| > 0
    ensures Spaced(parts, gaps) == parts[0] + gaps[0] + Spaced(parts[1..], gaps[1..])
  {}

  lemma PartsSolid(a: Audit)
    requires AllSolid(a)
    ensures forall i :: 0 <= i < 5 ==> Solid(PartsOf(a)[i]) && (i > 0 ==> PartsOf(a)[i] != [])
    ensures Blank(" ") && Blank("")
  {
    assert Solid("user") && Solid("action") && Solid("object") && Solid("app") && Solid("=");
  }

  lemma {:induction false} ValuesAreSolid(parts: seq<string>)
    requires parts != [] && Fields(parts).Some? && forall i :: 0 <= i < |parts| ==> Solid(parts[i])
    ensures forall key :: key in Fields(parts).value ==> Solid(Fields(parts).value[key])
  {
    if |parts| > 1 { ValuesAreSolid(parts[..|parts| - 1]); }
  }

  /**
   The round trip, exactly: parsing a printed line gives back the five fields if and
   only if none of them holds whitespace and the timestamp is not empty. Other
   fields may be empty, and any of them may hold '='.
  */
  lemma RoundTrip(a: Audit)
    ensures Parsed(BuildLogLine(a)) == Some(AsFields(a)) <==> AllSolid(a) && a.timestamp != ""
  {
    hide Words, Spaced, Strip, BuildLogLine, Fields, Token;
    if AllSolid(a) {
      WordsOfLine(a);
      FieldsOfParts(a);
    } else if Parsed(BuildLogLine(a)) == Some(AsFields(a)) {
      ParsedIsSolid(a);
    }
  }

  lemma ParsedIsSolid(a: Audit)
    requires Parsed(BuildLogLine(a)) == Some(AsFields(a))
    ensures AllSolid(a)
  {
    hide Words, Strip, BuildLogLine, Fields, Solid;
    WordsAreSolid(Strip(BuildLogLine(a)));
    ValuesAreSolid(Words(Strip(BuildLogLine(a))));
    var m := AsFields(a);
    assert Solid(m["timestamp"]) && Solid(m["user"]) && Solid(m["action"]) && Solid(m["object"]) && Solid(m["app"]);
  }

  // The event ------------------------------------------------------------------------------

  datatype AuditEvent = AuditEvent(eventId: string, tenant: string, app: string, timestamp: string, user: string,
                                   action: string, category: string, objectType: string, objectId: string)

  /** str.partition(":"), without the separator. */
  function Partition(s: string): (string, string) {
    var k := IndexOf(s, ':');
    if k == |s| then (s, "") else (s[..k], s[k + 1..])
  }

  function Or(s: string, t: string): string { if s != "" then s else t }

  function CategoryFor(action: string): string {
    var verb := action[..IndexOf(action, '_')];
    if verb == "view" || verb == "export" then "read"
    else if verb in ["search", "approve", "reject", "update", "create", "delete"] then verb
    else "read"
  }

  /** raw.replace("Z", "+00:00") */
  function IsoTimestamp(raw: string): string {
    if raw == "" then "" else (if raw[0] == 'Z' then "+00:00" else [raw[0]]) + IsoTimestamp(raw[1..])
  }

  function ToEvent(fields: map<string, string>, tenant: string, eventId: string): AuditEvent
    requires "timestamp" in fields && HasRequired(fields)
  {
    var (objectType, objectId) := Partition(fields["object"]);
    AuditEvent(eventId, tenant, fields["app"], IsoTimestamp(fields["timestamp"]), fields["user"], fields["action"],
               CategoryFor(fields["action"]), Or(objectType, "record"), Or(objectId, fields["object"]))
  }

  /**
   An object printed as type:id comes back as that type and id if and only if the type is
   not empty and has no colon and the id is not empty.
  */
  lemma ObjectRecovered(fields: map<string, string>, tenant: string, eventId: string, objectType: string, objectId: string)
    requires "timestamp" in fields && HasRequired(fields) && fields["object"] == objectType + ":" + objectId
    ensures (ToEvent(fields, tenant, eventId).objectType == objectType && ToEvent(fields, tenant, eventId).objectId == objectId)
            <==> objectType != "" && ':' !in objectType && objectId != ""
  {
    var s := objectType + ":" + objectId;
    var k := IndexOf(s, ':');
    assert s[|objectType|] == ':';
    if ':' !in objectType {
      IndexOfAfter(objectType, ':', objectId);
      assert s[..|objectType|] == objectType && s[|objectType| + 1..] == objectId;
    } else {
      assert ':' !in s[..k];
      assert ':' !in "record";
    }
  }

  /** The object id is empty only for an empty object, and the object type never is. */
  lemma ObjectNeverEmpty(fields: map<string, string>, tenant: string, eventId: string)
    requires "timestamp" in fields && HasRequired(fields)
    ensures ToEvent(fields, tenant, eventId).objectType != ""
    ensures ':' !in fields["object"] && fields["object"] != "" ==>
              ToEvent(fields, tenant, eventId).objectType == fields["object"] == ToEvent(fields, tenant, eventId).objectId
    ensures fields["object"] == "" || fields["object"][0] == ':' ==> ToEvent(fields, tenant, eventId).objectType == "record"
    ensures ToEvent(fields, tenant, eventId).objectId == "" <==> fields["object"] == ""
  {}

  lemma {:induction false} IsoExact(body: string)
    requires 'Z' !in body
    ensures IsoTimestamp(body + "Z") == body + "+00:00"
  {
    if body == "" {
      assert "" + "Z" == "Z" && "Z"[1..] == "";
    } else {
      assert (body + "Z")[1..] == body[1..] + "Z";
      IsoExact(body[1..]);
    }
  }

  /** Every Z is replaced, and nothing else. */
  lemma {:induction false} IsoReplacesZ(s: string)
    ensures 'Z' !in IsoTimestamp(s)
    ensures 'Z' !in s ==> IsoTimestamp(s) == s
  {
    if s != "" {
      IsoReplacesZ(s[1..]);
      assert s == [s[0]] + s[1..];
    }
  }

  lemma {:induction false} IsoConcat(a: string, b: string)
    ensures IsoTimestamp(a + b) == IsoTimestamp(a) + IsoTimestamp(b)
  {
    if a == "" {
      assert a + b == b;
    } else {
      assert (a + b)[0] == a[0] && (a + b)[1..] == a[1..] + b;
      IsoConcat(a[1..], b);
    }
  }

  lemma CategoryByVerb(verb: string, rest: string)
    requires '_' !in verb
    ensures CategoryFor(verb + "_" + rest) == CategoryFor(verb)
    ensures CategoryFor(verb) == if verb in {"search", "approve", "reject", "update", "create", "delete"} then verb else "read"
  {
    IndexOfAfter(verb, '_', rest);
    assert (verb + "_" + rest)[..|verb|] == verb;
    assert verb[..|verb|] == verb;
    assert IndexOf(verb, '_') == |verb|;
  }

  /** From printer to event: nothing the line says is lost or changed. */
  lemma LineToEvent(a: Audit, objectType: string, objectId: string, time: string, tenant: string, eventId: string)
    requires AllSolid(a) && a.target == objectType + ":" + objectId && a.timestamp == time + "Z"
    requires 'Z' !in time && objectType != "" && ':' !in objectType && objectId != ""
    ensures Parsed(BuildLogLine(a)).Some?
    ensures var fields := Parsed(BuildLogLine(a)).value;
            && "timestamp" in fields && HasRequired(fields)
            && ToEvent(fields, tenant, eventId) ==
               AuditEvent(eventId, tenant, a.app, time + "+00:00", a.user, a.action, CategoryFor(a.action), objectType, objectId)
  {
    hide Parsed, BuildLogLine, Partition, IsoTimestamp, CategoryFor;
    assert a.timestamp[|time|] == 'Z';
    RoundTrip(a);
    ObjectRecovered(AsFields(a), tenant, eventId, objectType, objectId);
    IsoExact(time);
  }

  // Replay ---------------------------------------------------------------------------------

  /** The event as the store sees it; `at` reads a timestamp. */
  function Stored(a: AuditEvent, at: string -> int): Event {
    Event(a.tenant, a.app, "legacy-erp-prod", a.user, AppNativeId, None, [], a.objectType, a.objectId, a.eventId, a.action,
          at(a.timestamp), Details(a.category, None, "production", None, None, None))
  }

  /**
   Forwarding one line twice changes nothing the second time exactly when the second
   event id is the first one or was already stored. The listener draws a new id per
   line, so replaying a log stores it again.
  */
  lemma ReplayExact(g: Graph, fields: map<string, string>, tenant: string, id1: string, id2: string, at: string -> int)
    requires "timestamp" in fields && HasRequired(fields)
    ensures var first, second := Stored(ToEvent(fields, tenant, id1), at), Stored(ToEvent(fields, tenant, id2), at);
            Write(Write(g, first), second) == Write(g, first) <==> id2 == id1 || id2 in EventIds(g.performed)
  {
    hide Partition, IsoTimestamp, CategoryFor, MergedUsers, MergedObjects;
    var first, second := Stored(ToEvent(fields, tenant, id1), at), Stored(ToEvent(fields, tenant, id2), at);
    var h := Write(g, first);
    if Accepts(g, first) {
      assert h.performed[|g.performed|] == first.Performed();
      assert EventIds(h.performed) == EventIds(g.performed) + {id1};
    }
    if Accepts(h, second) {
      assert |Write(h, second).performed| == |h.performed| + 1;
    }
  }
}
