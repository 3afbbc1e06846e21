/** The keyword table: which action types a trigger text points to. */
module Keywords {
  import opened Options
  import opened Text

  /** Word characters of the regular expression engine, restricted to ASCII. */
  predicate IsWord(c: char) { 'a' <= c <= 'z' || 'A' <= c <= 'Z' || '0' <= c <= '9' || c == '_' }

  /** A word boundary before position i. */
  predicate Boundary(s: string, i: nat)
    requires i <= |s|
  {
    (i > 0 && IsWord(s[i - 1])) != (i < |s| && IsWord(s[i]))
  }

  predicate StartsAt(s: string, keyword: string, i: nat) { i + |keyword| <= |s| && s[i..i + |keyword|] == keyword }

  /** The search for a boundary, then the keyword; the trailing word characters never fail. */
  predicate Found(s: string, keyword: string) { exists i: nat :: i <= |s| && Boundary(s, i) && StartsAt(s, keyword, i) }

  /** A maximal run of word characters. */
  ghost predicate IsWordRun(s: string, i: nat, j: nat) {
    && i < j <= |s|
    && (forall k :: i <= k < j ==> IsWord(s[k]))
    && (i > 0 ==> !IsWord(s[i - 1]))
    && (j < |s| ==> !IsWord(s[j]))
  }

  ghost predicate SomeWordStartsWith(s: string, keyword: string) {
    exists i: nat, j: nat :: IsWordRun(s, i, j) && keyword <= s[i..j]
  }

  lemma RunEnd(s: string, i: nat) returns (j: nat)
    requires i < |s| && IsWord(s[i])
    ensures i < j <= |s| && (forall k :: i <= k < j ==> IsWord(s[k])) && (j < |s| ==> !IsWord(s[j]))
  {
    j := i + 1;
    while j < |s| && IsWord(s[j])
      invariant i < j <= |s| && forall k :: i <= k < j ==> IsWord(s[k])
    {
      j := j + 1;
    }
  }

  /** A keyword's place in the text is at a boundary: on the other side of it is the other class of character, or the text's end. */
  predicate OnEdge(s: string, keyword: string, i: nat)
    requires i <= |s| && keyword != []
  {
    if IsWord(keyword[0]) then i == 0 || !IsWord(s[i - 1]) else i > 0 && IsWord(s[i - 1])
  }

  lemma BoundaryAtKeyword(s: string, keyword: string, i: nat)
    requires keyword != [] && i <= |s| && StartsAt(s, keyword, i)
    ensures Boundary(s, i) <==> OnEdge(s, keyword, i)
  {
    assert s[i..i + |keyword|][0] == s[i];
  }

  lemma {:induction false} SomeBoundary(s: string, k: nat) returns (i: nat)
    requires k < |s| && IsWord(s[k])
    ensures i <= |s| && Boundary(s, i)
  {
    if k > 0 && IsWord(s[k - 1]) { i := SomeBoundary(s, k - 1); } else { i := k; }
  }

  lemma EmptyKeyword(s: string)
    ensures Found(s, []) <==> exists k :: 0 <= k < |s| && IsWord(s[k])
  {
    hide IsWord;
    if k :| 0 <= k < |s| && IsWord(s[k]) {
      var i := SomeBoundary(s, k);
      assert StartsAt(s, [], i);
    }
    if i: nat :| i <= |s| && Boundary(s, i) && StartsAt(s, [], i) {
      assert IsWord(s[if i > 0 && IsWord(s[i - 1]) then i - 1 else i]);
    }
  }

  /** For a keyword of word characters: exactly when some whole word begins with it. */
  lemma WholeWordFound(s: string, keyword: string)
    requires keyword != [] && forall k :: 0 <= k < |keyword| ==> IsWord(keyword[k])
    ensures Found(s, keyword) <==> SomeWordStartsWith(s, keyword)
  {
    if Found(s, keyword) {
      var i: nat :| i <= |s| && Boundary(s, i) && StartsAt(s, keyword, i);
      forall k | i <= k < i + |keyword| ensures IsWord(s[k]) {
        assert s[i..i + |keyword|][k - i] == s[k];
      }
      var j := RunEnd(s, i);
      assert s[i..j][..|keyword|] == s[i..i + |keyword|];
      assert IsWordRun(s, i, j);
    }
    if SomeWordStartsWith(s, keyword) {
      var i: nat, j: nat :| IsWordRun(s, i, j) && keyword <= s[i..j];
      assert s[i..i + |keyword|] == s[i..j][..|keyword|];
      assert Boundary(s, i) && StartsAt(s, keyword, i);
    }
  }

  /**
   The search, for any keyword: it succeeds exactly when the keyword stands somewhere
   on an edge, so after a word character if it begins with a non-word one; the empty
   keyword is found in any text with a word character; and a keyword of word
   characters is found exactly when some whole word begins with it.
  */
  lemma FoundExact(s: string, keyword: string)
    ensures keyword != [] ==> (Found(s, keyword) <==> exists i: nat :: i <= |s| && StartsAt(s, keyword, i) && OnEdge(s, keyword, i))
    ensures keyword == [] ==> (Found(s, keyword) <==> exists k :: 0 <= k < |s| && IsWord(s[k]))
    ensures keyword != [] && (forall k :: 0 <= k < |keyword| ==> IsWord(keyword[k])) ==>
              (Found(s, keyword) <==> SomeWordStartsWith(s, keyword))
  {
    hide IsWord, Boundary, StartsAt, SomeWordStartsWith;
    if keyword != [] {
      forall i: nat | i <= |s| && StartsAt(s, keyword, i) ensures Boundary(s, i) <==> OnEdge(s, keyword, i) {
        BoundaryAtKeyword(s, keyword, i);
      }
      if forall k :: 0 <= k < |keyword| ==> IsWord(keyword[k]) { WholeWordFound(s, keyword); }
    } else {
      EmptyKeyword(s);
    }
  }

  datatype Mapping = Mapping(keyword: string, actions: seq<string>)

  /** The first keyword of the table, in order, that is found and lists the action. */
  function KeywordFor(s: string, table: seq<Mapping>, action: string): Option<string> {
    if table == [] then None
    else
      var earlier := KeywordFor(s, table[..|table| - 1], action);
      var m := table[|table| - 1];
      if earlier.Some? then earlier
      else if Found(s, m.keyword) && action in m.actions then Some(m.keyword)
      else None
  }

  /** The answer of the keyword table for a trigger text. */
  ghost predicate IsMatch(table: seq<Mapping>, trigger: Option<string>, matches: map<string, string>) {
    if trigger.None? || trigger.value == "" then matches == map[]
    else forall a :: (if a in matches then Some(matches[a]) else None) == KeywordFor(Lower(trigger.value), table, a)
  }

  /** match: the table is walked in order and the first keyword for an action stays. */
  method Match(table: seq<Mapping>, trigger: Option<string>) returns (matches: map<string, string>)
    ensures IsMatch(table, trigger, matches)
  {
    matches := map[];
    if trigger.None? || trigger.value == "" {
      return;
    }
    var lowered := Lower(trigger.value);
    for i := 0 to |table|
      invariant forall a :: (if a in matches then Some(matches[a]) else None) == KeywordFor(lowered, table[..i], a)
    {
      assert table[..i + 1][..i] == table[..i];
      var m := table[i];
      if exists p: nat :: p <= |lowered| && Boundary(lowered, p) && StartsAt(lowered, m.keyword, p) {
        ghost var before := matches;
        for k := 0 to |m.actions|
          invariant forall a :: a in before ==> a in matches && matches[a] == before[a]
          invariant forall a :: a !in before ==> (a in matches <==> a in m.actions[..k]) && (a in matches ==> matches[a] == m.keyword)
        {
          assert m.actions[..k + 1] == m.actions[..k] + [m.actions[k]];
          if m.actions[k] !in matches {
            matches := matches[m.actions[k] := m.keyword];
          }
        }
        assert m.actions[..|m.actions|] == m.actions;
      }
    }
    assert table[..|table|] == table;
  }

  lemma {:induction false} KeywordExact(s: string, table: seq<Mapping>, action: string)
    ensures KeywordFor(s, table, action).Some? <==>
            exists i :: 0 <= i < |table| && Found(s, table[i].keyword) && action in table[i].actions
    ensures KeywordFor(s, table, action).Some? ==>
            exists i :: 0 <= i < |table| && table[i].keyword == KeywordFor(s, table, action).value &&
              Found(s, table[i].keyword) && action in table[i].actions &&
              forall j :: 0 <= j < i ==> !(Found(s, table[j].keyword) && action in table[j].actions)
  {
    hide Found;
    if table != [] {
      var front, n := table[..|table| - 1], |table| - 1;
      KeywordExact(s, front, action);
      assert forall i :: 0 <= i < n ==> front[i] == table[i];
    }
  }
}
