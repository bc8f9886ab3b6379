/**
 * The clean-up applied to SQL text that comes back from the text-generation
 * service: once in the service client (src/services/openRouter.ts) and again,
 * with two more steps, before the text is offered for execution (src/App.tsx).
 * Each `replace` of the chain is one function; a global regular-expression
 * replace scans left to right, so each is a left-to-right recursion.
 */
module Cleanup {
  import opened Wrappers
  import opened Text

  /** ASCII lower-casing; JavaScript's `/i` folds no other character onto these patterns. */
  function Lower(c: char): char {
    if 'A' <= c <= 'Z' then (c as int + 32) as char else c
  }

  predicate Same(a: char, b: char, ci: bool) {
    if ci then Lower(a) == Lower(b) else a == b
  }

  /** `pattern` matches at the start of `s` (case-insensitively when `ci`). */
  predicate Matches(s: string, pattern: string, ci: bool) {
    |pattern| <= |s| && forall i :: 0 <= i < |pattern| ==> Same(s[i], pattern[i], ci)
  }

  /** `pattern` matches nowhere in `s`. */
  predicate Free(s: string, pattern: string, ci: bool) {
    forall j :: 0 <= j <= |s| ==> !Matches(s[j..], pattern, ci)
  }

  predicate NoSpaces(s: string) {
    forall i :: 0 <= i < |s| ==> !IsSpace(s[i])
  }

  /** Every whitespace character is a plain space and no two spaces are adjacent. */
  predicate SingleSpaced(s: string) {
    && (forall i :: 0 <= i < |s| ==> IsSpace(s[i]) ==> s[i] == ' ')
    && (forall i :: 0 <= i < |s| - 1 ==> !(s[i] == ' ' && s[i + 1] == ' '))
  }

  /** The length of the run of non-whitespace characters that starts `s`. */
  function Word(s: string): (n: nat)
    ensures n <= |s|
    ensures forall i :: 0 <= i < n ==> !IsSpace(s[i])
    ensures n < |s| ==> IsSpace(s[n])
  {
    if s != [] && !IsSpace(s[0]) then 1 + Word(s[1..]) else 0
  }

  /** The length of the line that starts `s`: everything `.` matches. */
  function LineEnd(s: string): (n: nat)
    ensures n <= |s|
    ensures forall i :: 0 <= i < n ==> !IsLineTerminator(s[i])
    ensures n < |s| ==> IsLineTerminator(s[n])
  {
    if s != [] && !IsLineTerminator(s[0]) then 1 + LineEnd(s[1..]) else 0
  }

  lemma SameNonSpace(a: char, b: char, ci: bool)
    requires Same(a, b, ci) && !IsSpace(b)
    ensures !IsSpace(a) && !IsLineTerminator(a)
  {
  }

  /** A character that agrees with a pattern free of whitespace cannot be whitespace. */
  lemma MatchHasNoSpaces(s: string, pattern: string, ci: bool)
    requires NoSpaces(pattern) && Matches(s, pattern, ci)
    ensures Word(s) >= |pattern|
  {
    forall i | 0 <= i < |pattern|
      ensures !IsSpace(s[i])
    {
      SameNonSpace(s[i], pattern[i], ci);
    }
  }

  /**
   * If `r` agrees with `s` up to `r`'s first whitespace, a whitespace-free
   * pattern that matches at the start of `r` matches at the start of `s`.
   */
  lemma MatchTransfer(r: string, s: string, pattern: string, ci: bool)
    requires NoSpaces(pattern)
    requires Word(r) <= |s| && r[..Word(r)] == s[..Word(r)]
    ensures Matches(r, pattern, ci) ==> Matches(s, pattern, ci)
  {
    if Matches(r, pattern, ci) {
      MatchHasNoSpaces(r, pattern, ci);
      forall i | 0 <= i < |pattern|
        ensures Same(s[i], pattern[i], ci)
      {
        assert s[i] == s[..Word(r)][i] == r[..Word(r)][i];
      }
    }
  }

  /** Prepending a character that starts no match keeps a string free of the pattern. */
  lemma FreeCons(c: char, r: string, pattern: string, ci: bool)
    requires Free(r, pattern, ci) && !Matches([c] + r, pattern, ci)
    ensures Free([c] + r, pattern, ci)
  {
    forall j | 1 <= j <= |r| + 1
      ensures !Matches(([c] + r)[j..], pattern, ci)
    {
      assert ([c] + r)[j..] == r[j - 1..];
    }
  }

  /** A match at the start of a prefix of `u` is a match at the start of `u`. */
  lemma MatchPrefix(t: string, u: string, pattern: string, ci: bool)
    requires |t| <= |u| && t == u[..|t|]
    ensures Matches(t, pattern, ci) ==> Matches(u, pattern, ci)
  {
    if Matches(t, pattern, ci) {
      forall i | 0 <= i < |pattern|
        ensures Same(u[i], pattern[i], ci)
      {
        assert u[i] == t[i];
      }
    }
  }

  /** Every slice of a string free of a pattern is free of it. */
  lemma FreeSlice(s: string, a: nat, b: nat, pattern: string, ci: bool)
    requires a <= b <= |s| && Free(s, pattern, ci)
    ensures Free(s[a..b], pattern, ci)
  {
    forall j | 0 <= j <= b - a
      ensures !Matches(s[a..b][j..], pattern, ci)
    {
      assert s[a..b][j..] == s[a + j..][..b - a - j];
      MatchPrefix(s[a..b][j..], s[a + j..], pattern, ci);
    }
  }

  /** Slices of a single-spaced string are single-spaced. */
  lemma SingleSpacedSlice(s: string, a: nat, b: nat)
    requires a <= b <= |s| && SingleSpaced(s)
    ensures SingleSpaced(s[a..b])
  {
    forall i | 0 <= i < b - a - 1
      ensures !(s[a..b][i] == ' ' && s[a..b][i + 1] == ' ')
    {
      assert s[a..b][i] == s[a + i] && s[a..b][i + 1] == s[a + i + 1];
    }
  }

  // ---------------------------------------------------------------------------
  // .replace(/```sql|```/g, '')

  /**
   * Deletes every "```sql" and "```" found scanning left to right, preferring
   * the longer alternative where both match. No "```" is left behind.
   */
  function StripFences(s: string): (r: string)
    ensures Free(r, "```", false)
    ensures r != [] && r[0] == '`' ==> s != [] && s[0] == '`'
    ensures Matches(r, "``", false) ==> Matches(s, "``", false)
    decreases |s|
  {
    if s == [] then []
    else if Matches(s, "```sql", false) then
      assert Same(s[0], "```sql"[0], false) && Same(s[1], "```sql"[1], false);
      StripFences(s[6..])
    else if Matches(s, "```", false) then
      assert Same(s[0], "```"[0], false) && Same(s[1], "```"[1], false);
      StripFences(s[3..])
    else
      var rest := StripFences(s[1..]);
      FenceWindow(s[0], rest);
      FreeCons(s[0], rest, "```", false);
      [s[0]] + rest
  }

  lemma FenceWindow(c: char, r: string)
    ensures Matches([c] + r, "```", false) ==> c == '`' && Matches(r, "``", false)
    ensures Matches([c] + r, "``", false) ==> c == '`' && r != [] && r[0] == '`'
  {
    var t := [c] + r;
    if Matches(t, "```", false) {
      assert Same(t[0], "```"[0], false) && Same(t[1], "```"[1], false) && Same(t[2], "```"[2], false);
      assert t[1] == r[0] && t[2] == r[1];
      assert Same(r[0], "``"[0], false) && Same(r[1], "``"[1], false);
    }
    if Matches(t, "``", false) {
      assert Same(t[0], "``"[0], false) && Same(t[1], "``"[1], false);
      assert t[1] == r[0];
    }
  }

  /** Text with no fence is left as it is. */
  lemma {:induction false} StripFencesIdentity(s: string)
    requires Free(s, "```", false)
    ensures StripFences(s) == s
    decreases |s|
  {
    if s != [] {
      assert !Matches(s[0..], "```", false);
      assert s[0..] == s;
      FreeSlice(s, 1, |s|, "```", false);
      StripFencesIdentity(s[1..]);
    }
  }

  /** How much a fence at the start of `t` takes: "```sql" where it matches, else "```". */
  function FenceWidth(t: string): nat {
    if Matches(t, "```sql", false) then 6 else 3
  }

  /**
   * The text before the first fence is kept as it is; the fence itself is
   * dropped and the stripping goes on right after it.
   */
  lemma {:induction false} StripFencesKeepsText(s: string, i: nat)
    requires i <= |s|
    requires forall j :: 0 <= j < i ==> !Matches(s[j..], "```", false)
    ensures StripFences(s) == s[..i] + StripFences(s[i..])
    decreases i
  {
    if i > 0 {
      ShiftNoMatch(s, i, "```", false);
      StripFencesStep(s);
      StripFencesKeepsText(s[1..], i - 1);
      ConsSlice(s, i);
      ConsAssoc(s[0], s[1..][..i - 1], StripFences(s[i..]));
    } else {
      ConsSlice(s, 0);
    }
  }

  /** A fence is dropped and the stripping goes on right after it. */
  lemma StripFencesAtFence(s: string, i: nat)
    requires i < |s| && Matches(s[i..], "```", false)
    ensures i + FenceWidth(s[i..]) <= |s| && StripFences(s[i..]) == StripFences(s[i + FenceWidth(s[i..])..])
  {
    SuffixOfSuffix(s, i, FenceWidth(s[i..]));
  }

  lemma ConsAssoc(c: char, a: string, b: string)
    ensures [c] + (a + b) == ([c] + a) + b
  {
  }

  /** A character that starts no fence is kept, and the stripping goes on after it. */
  lemma StripFencesStep(s: string)
    requires s != [] && !Matches(s, "```", false)
    ensures StripFences(s) == [s[0]] + StripFences(s[1..])
  {
    SqlFenceIsFence(s);
  }

  /** Text that opens with "```sql" opens with "```". */
  lemma SqlFenceIsFence(s: string)
    ensures Matches(s, "```sql", false) ==> Matches(s, "```", false)
  {
    if Matches(s, "```sql", false) {
      assert Same(s[0], "```sql"[0], false) && Same(s[1], "```sql"[1], false) && Same(s[2], "```sql"[2], false);
    }
  }

  /** `s[..i]` is `s[0]` followed by the first `i - 1` characters of `s[1..]`; `s[i..]` is what follows them. */
  lemma ConsSlice(s: string, i: nat)
    requires i <= |s|
    ensures i == 0 ==> s[..i] == [] && s[i..] == s
    ensures i > 0 ==> s[..i] == [s[0]] + s[1..][..i - 1] && s[1..][i - 1..] == s[i..]
  {
  }

  lemma SuffixOfSuffix(s: string, i: nat, k: nat)
    requires i + k <= |s|
    ensures s[i..][k..] == s[i + k..]
  {
  }

  /** No match before `i` in `s` is no match at its start and none before `i - 1` in its tail. */
  lemma ShiftNoMatch(s: string, i: nat, pattern: string, ci: bool)
    requires 0 < i <= |s|
    requires forall j :: 0 <= j < i ==> !Matches(s[j..], pattern, ci)
    ensures !Matches(s, pattern, ci)
    ensures forall j :: 0 <= j < i - 1 ==> !Matches(s[1..][j..], pattern, ci)
  {
    assert s[0..] == s;
    forall j | 0 <= j < i - 1
      ensures !Matches(s[1..][j..], pattern, ci)
    {
      assert s[1..][j..] == s[j + 1..];
    }
  }

  // ---------------------------------------------------------------------------
  // .replace(/Note:.*/gi, '') and .replace(/--.*/g, '')  (also /--.*$/gm)

  /**
   * Deletes, scanning left to right, every occurrence of `marker` together
   * with the rest of its line; the line terminator itself stays.
   */
  function StripComments(s: string, marker: string, ci: bool): (r: string)
    requires marker != [] && NoSpaces(marker)
    ensures Free(r, marker, ci)
    ensures Word(r) <= |s| && r[..Word(r)] == s[..Word(r)]
    ensures s != [] && IsSpace(s[0]) ==> r != [] && r[0] == s[0]
    decreases |s|
  {
    if s == [] then []
    else if Matches(s, marker, ci) then
      assert Same(s[0], marker[0], ci);
      SameNonSpace(s[0], marker[0], ci);
      var rest := StripComments(s[LineEnd(s)..], marker, ci);
      assert Word(rest) == 0 by {
        if LineEnd(s) < |s| {
          assert IsSpace(s[LineEnd(s)..][0]);
        }
      }
      rest
    else
      var rest := StripComments(s[1..], marker, ci);
      var r := [s[0]] + rest;
      WordCons(s[0], rest, s);
      MatchTransfer(r, s, marker, ci);
      FreeCons(s[0], rest, marker, ci);
      r
  }

  /** Text without the marker is left as it is. */
  lemma {:induction false} StripCommentsIdentity(s: string, marker: string, ci: bool)
    requires marker != [] && NoSpaces(marker) && Free(s, marker, ci)
    ensures StripComments(s, marker, ci) == s
    decreases |s|
  {
    if s != [] {
      assert s[0..] == s;
      FreeSlice(s, 1, |s|, marker, ci);
      StripCommentsIdentity(s[1..], marker, ci);
    }
  }

  /**
   * The text before the first marker is kept as it is; the marker and the
   * rest of its line are dropped and the stripping goes on at the line's end.
   */
  lemma {:induction false} StripCommentsKeepsText(s: string, marker: string, ci: bool, i: nat)
    requires marker != [] && NoSpaces(marker) && i <= |s|
    requires forall j :: 0 <= j < i ==> !Matches(s[j..], marker, ci)
    ensures StripComments(s, marker, ci) == s[..i] + StripComments(s[i..], marker, ci)
    decreases i
  {
    if i > 0 {
      ShiftNoMatch(s, i, marker, ci);
      StripCommentsKeepsText(s[1..], marker, ci, i - 1);
      ConsSlice(s, i);
      ConsAssoc(s[0], s[1..][..i - 1], StripComments(s[i..], marker, ci));
    } else {
      ConsSlice(s, 0);
    }
  }

  /** A marker and the rest of its line are dropped; the stripping goes on at the line's end. */
  lemma StripCommentsAtMarker(s: string, marker: string, ci: bool, i: nat)
    requires marker != [] && NoSpaces(marker)
    requires i < |s| && Matches(s[i..], marker, ci)
    ensures StripComments(s[i..], marker, ci) == StripComments(s[i + LineEnd(s[i..])..], marker, ci)
  {
    var t := s[i..];
    SkipsLine(t, marker, ci);
    SuffixOfSuffix(s, i, LineEnd(t));
  }

  lemma SkipsLine(t: string, marker: string, ci: bool)
    requires marker != [] && NoSpaces(marker) && t != [] && Matches(t, marker, ci)
    ensures StripComments(t, marker, ci) == StripComments(t[LineEnd(t)..], marker, ci)
  {
  }

  /** Deleting comments introduces no occurrence of a whitespace-free pattern. */
  lemma {:induction false} StripCommentsKeepsFree(s: string, marker: string, ci: bool, pattern: string, pci: bool)
    requires marker != [] && NoSpaces(marker) && NoSpaces(pattern)
    requires Free(s, pattern, pci)
    ensures Free(StripComments(s, marker, ci), pattern, pci)
    decreases |s|
  {
    if s != [] {
      if Matches(s, marker, ci) {
        assert Same(s[0], marker[0], ci);
        SameNonSpace(s[0], marker[0], ci);
        FreeSlice(s, LineEnd(s), |s|, pattern, pci);
        assert s[LineEnd(s)..|s|] == s[LineEnd(s)..];
        StripCommentsKeepsFree(s[LineEnd(s)..], marker, ci, pattern, pci);
      } else {
        FreeSlice(s, 1, |s|, pattern, pci);
        assert s[1..|s|] == s[1..];
        StripCommentsKeepsFree(s[1..], marker, ci, pattern, pci);
        var r := StripComments(s, marker, ci);
        assert s[0..] == s;
        MatchTransfer(r, s, pattern, pci);
        FreeCons(s[0], StripComments(s[1..], marker, ci), pattern, pci);
      }
    }
  }

  // ---------------------------------------------------------------------------
  // .replace(/\s+/g, ' ')

  /** Replaces every maximal run of whitespace with one space. */
  function Collapse(s: string): (r: string)
    ensures SingleSpaced(r)
    ensures s == [] <==> r == []
    ensures s != [] ==> if IsSpace(s[0]) then r[0] == ' ' else r[0] == s[0]
    ensures Word(r) <= |s| && r[..Word(r)] == s[..Word(r)]
    decreases |s|
  {
    if s == [] then []
    else if IsSpace(s[0]) then
      var rest := Collapse(s[LeadingSpaces(s)..]);
      SingleSpacedCons(' ', rest);
      [' '] + rest
    else
      var rest := Collapse(s[1..]);
      SingleSpacedCons(s[0], rest);
      WordCons(s[0], rest, s);
      [s[0]] + rest
  }

  /** A character put in front of single-spaced text keeps it single-spaced unless it makes a double space. */
  lemma SingleSpacedCons(c: char, r: string)
    requires SingleSpaced(r)
    requires IsSpace(c) ==> c == ' ' && (r == [] || r[0] != ' ')
    ensures SingleSpaced([c] + r)
  {
    var t := [c] + r;
    forall i | 1 <= i < |t|
      ensures t[i] == r[i - 1]
    {
    }
  }

  /**
   * When `r` agrees with the tail of `s` up to `r`'s first whitespace,
   * `s`'s first character put in front of `r` agrees with `s` up to its first whitespace.
   */
  lemma WordCons(c: char, r: string, s: string)
    requires s != [] && s[0] == c
    requires Word(r) <= |s| - 1 && r[..Word(r)] == s[1..][..Word(r)]
    ensures Word([c] + r) <= |s| && ([c] + r)[..Word([c] + r)] == s[..Word([c] + r)]
  {
    var t := [c] + r;
    if !IsSpace(c) {
      assert t[1..] == r;
      assert Word(t) == 1 + Word(r);
      assert t[..Word(t)] == [c] + r[..Word(r)];
      assert s[..Word(t)] == [c] + s[1..][..Word(r)];
    }
  }

  /** The result ends with a space exactly when the input ends with whitespace: a trailing run becomes one space. */
  lemma {:induction false} CollapseLast(s: string)
    requires s != []
    ensures var r := Collapse(s); IsSpace(s[|s| - 1]) <==> r[|r| - 1] == ' '
    decreases |s|
  {
    var n := if IsSpace(s[0]) then LeadingSpaces(s) else 1;
    var c := if IsSpace(s[0]) then ' ' else s[0];
    var u := s[n..];
    CollapseHead(s);
    if u == [] {
      LastOfSingle(c, Collapse(u));
      assert IsSpace(s[0]) ==> IsSpace(s[|s| - 1]);
      assert !IsSpace(s[0]) ==> s[|s| - 1] == s[0];
    } else {
      CollapseLast(u);
      assert u[|u| - 1] == s[|s| - 1];
      LastOfCons(c, Collapse(u));
    }
  }

  /** Collapsing emits one character for the first character or run, then collapses the rest. */
  lemma CollapseHead(s: string)
    requires s != []
    ensures var n := if IsSpace(s[0]) then LeadingSpaces(s) else 1;
      && 1 <= n <= |s|
      && Collapse(s) == [if IsSpace(s[0]) then ' ' else s[0]] + Collapse(s[n..])
      && (s[n..] == [] <==> Collapse(s[n..]) == [])
  {
  }

  lemma LastOfSingle(c: char, x: string)
    requires x == []
    ensures ([c] + x)[0] == c && |[c] + x| == 1
  {
  }

  lemma LastOfCons(c: char, x: string)
    requires x != []
    ensures ([c] + x)[|x|] == x[|x| - 1]
  {
  }

  lemma {:induction false} CollapseIdentity(s: string)
    requires SingleSpaced(s)
    ensures Collapse(s) == s
    decreases |s|
  {
    if s != [] {
      SingleSpacedSlice(s, 1, |s|);
      assert s[1..|s|] == s[1..];
      CollapseIdentity(s[1..]);
      CollapseHead(s);
      if IsSpace(s[0]) {
        assert LeadingSpaces(s) == 1 by {
          assert |s| > 1 ==> !IsSpace(s[1]);
          assert s[1..] == [] || !IsSpace(s[1..][0]);
        }
      }
      assert [s[0]] + s[1..] == s;
    }
  }

  /** The maximal runs of non-whitespace characters of `s`, in order. */
  function Words(s: string): (ws: seq<string>)
    decreases |s|
  {
    if s == [] then []
    else if IsSpace(s[0]) then Words(s[LeadingSpaces(s)..])
    else [s[..Word(s)]] + Words(s[Word(s)..])
  }

  /** Text that starts with a word: the word, then the words of what follows, which collapses to nothing or starts with a space. */
  lemma WordStep(s: string)
    requires s != [] && !IsSpace(s[0])
    ensures var k := Word(s);
      && 0 < k && NoSpaces(s[..k])
      && Words(s) == [s[..k]] + Words(s[k..])
      && (Collapse(s[k..]) == [] || IsSpace(Collapse(s[k..])[0]))
  {
    var k := Word(s);
    assert forall i :: 0 <= i < k ==> s[..k][i] == s[i];
    if k < |s| {
      assert s[k..][0] == s[k];
    }
  }

  /** A word followed by nothing or by whitespace is the first word. */
  lemma {:induction false} WordOf(w: string, y: string)
    requires NoSpaces(w)
    requires y == [] || IsSpace(y[0])
    ensures Word(w + y) == |w|
    decreases |w|
  {
    if w != [] {
      assert (w + y)[1..] == w[1..] + y;
      WordOf(w[1..], y);
    } else {
      assert w + y == y;
    }
  }

  lemma WordsFront(w: string, y: string)
    requires w != [] && NoSpaces(w)
    requires y == [] || IsSpace(y[0])
    ensures Words(w + y) == [w] + Words(y)
  {
    WordOf(w, y);
    assert (w + y)[..|w|] == w;
    assert (w + y)[|w|..] == y;
  }

  /** Collapsing copies the first word as it is and goes on right after it. */
  lemma {:induction false} CollapseWord(s: string)
    ensures Word(s) <= |s| && Collapse(s) == s[..Word(s)] + Collapse(s[Word(s)..])
    decreases |s|
  {
    if s == [] || IsSpace(s[0]) {
      ConsSlice(s, 0);
    } else {
      var w := Word(s[1..]);
      CollapseStep(s);
      CollapseWord(s[1..]);
      ConsSlice(s, 1 + w);
      Glue(s[0], s[1..][..w], Collapse(s), Collapse(s[1..]), Collapse(s[1..][w..]));
    }
  }

  /** A whitespace run becomes one space, and the words are those after the run. */
  lemma CollapseSpaceStep(s: string)
    requires s != [] && IsSpace(s[0])
    ensures var t := s[LeadingSpaces(s)..];
      && Collapse(s) == [' '] + Collapse(t)
      && Words(s) == Words(t)
      && (Collapse(t) == [] || !IsSpace(Collapse(t)[0]))
  {
  }

  /** A space in front of text that does not start with whitespace adds no word. */
  lemma WordsAfterSpace(c: string)
    requires c == [] || !IsSpace(c[0])
    ensures Words([' '] + c) == Words(c)
  {
    var x := [' '] + c;
    assert x[1..] == c;
    assert LeadingSpaces(c) == 0;
    assert LeadingSpaces(x) == 1;
  }

  /** A non-whitespace character is copied and starts a word one longer than its tail's. */
  lemma CollapseStep(s: string)
    requires s != [] && !IsSpace(s[0])
    ensures Collapse(s) == [s[0]] + Collapse(s[1..]) && Word(s) == 1 + Word(s[1..])
  {
  }

  lemma Glue(c: char, a: string, x: string, y: string, z: string)
    requires x == [c] + y && y == a + z
    ensures x == ([c] + a) + z
  {
  }

  /**
   * Collapsing keeps every word: the maximal non-whitespace runs of the
   * result are those of the input, in order, so only the whitespace
   * between them changes.
   */
  lemma {:induction false} CollapseWords(s: string)
    ensures Words(Collapse(s)) == Words(s)
    decreases |s|
  {
    if s != [] {
      if IsSpace(s[0]) {
        var t := s[LeadingSpaces(s)..];
        CollapseSpaceStep(s);
        CollapseWords(t);
        WordsAfterSpace(Collapse(t));
      } else {
        var k := Word(s);
        CollapseWord(s);
        CollapseWords(s[k..]);
        WordStep(s);
        WordsFront(s[..k], Collapse(s[k..]));
      }
    }
  }

  /** Collapsing whitespace introduces no occurrence of a whitespace-free pattern. */
  lemma {:induction false} CollapseKeepsFree(s: string, pattern: string, ci: bool)
    requires pattern != [] && NoSpaces(pattern) && Free(s, pattern, ci)
    ensures Free(Collapse(s), pattern, ci)
    decreases |s|
  {
    if s != [] {
      var r := Collapse(s);
      if IsSpace(s[0]) {
        var n := LeadingSpaces(s);
        FreeSlice(s, n, |s|, pattern, ci);
        assert s[n..|s|] == s[n..];
        CollapseKeepsFree(s[n..], pattern, ci);
        assert !Matches(r, pattern, ci) by {
          if Matches(r, pattern, ci) {
            SameNonSpace(r[0], pattern[0], ci);
          }
        }
        FreeCons(' ', Collapse(s[n..]), pattern, ci);
      } else {
        FreeSlice(s, 1, |s|, pattern, ci);
        assert s[1..|s|] == s[1..];
        CollapseKeepsFree(s[1..], pattern, ci);
        assert s[0..] == s;
        MatchTransfer(r, s, pattern, ci);
        FreeCons(s[0], Collapse(s[1..]), pattern, ci);
      }
    }
  }

  // ---------------------------------------------------------------------------
  // .replace(/LIMIT\s+\d+(\s+OFFSET\s+\d+)?\s*$/i, '')

  predicate AllSpace(s: string) {
    forall i :: 0 <= i < |s| ==> IsSpace(s[i])
  }

  /** `\s+OFFSET\s+\d+\s*` up to the end of the text. */
  predicate IsOffsetClause(c: string) {
    var n2 := LeadingSpaces(c);
    && n2 > 0
    && Matches(c[n2..], "offset", true)
    && var e := c[n2 + 6..];
    var n3 := LeadingSpaces(e);
    && n3 > 0
    && var f := e[n3..];
    var d2 := LeadingDigits(f);
    && d2 > 0
    && AllSpace(f[d2..])
  }

  /** `t` is, in full, a match of `LIMIT\s+\d+(\s+OFFSET\s+\d+)?\s*$` (any case). */
  predicate IsLimitTail(t: string) {
    && Matches(t, "limit", true)
    && var a := t[5..];
    var n1 := LeadingSpaces(a);
    && n1 > 0
    && var b := a[n1..];
    var d1 := LeadingDigits(b);
    && d1 > 0
    && var c := b[d1..];
    (AllSpace(c) || IsOffsetClause(c))
  }

  /**
   * Removes the leftmost trailing `LIMIT n [OFFSET m]` clause and keeps the
   * text before it, including any space before the keyword.
   */
  function StripLimit(s: string): (r: string)
    ensures |r| <= |s| && r == s[..|r|]
    ensures forall j :: 0 <= j < |r| ==> !IsLimitTail(s[j..])
    ensures |r| < |s| ==> IsLimitTail(s[|r|..])
    ensures |r| == |s| ==> forall j :: 0 <= j <= |s| ==> !IsLimitTail(s[j..])
  {
    match Leftmost(s, 0, IsLimitTail)
    case None => s
    case Some(i) =>
      assert i < |s| by {
        assert |s[i..]| >= 5;
      }
      s[..i]
  }

  // ---------------------------------------------------------------------------
  // The two chains.

  /** `data.choices?.[0]?.message?.content || ''`: a missing or empty reply is the empty text. */
  function CompletionText(content: Option<string>): (r: string)
    ensures content.None? ==> r == ""
    ensures content.Some? ==> r == content.value
  {
    content.GetOr("")
  }

  /** Whitespace runs collapsed, then trimmed: trimmed and single-spaced. */
  function Squeeze(s: string): (r: string)
    ensures Trimmed(r) && SingleSpaced(r)
  {
    var collapsed := Collapse(s);
    var a := LeadingSpaces(collapsed);
    var r := Trim(collapsed);
    SingleSpacedSlice(collapsed, a, a + |r|);
    r
  }

  /** Squeezing introduces no occurrence of a whitespace-free pattern. */
  lemma SqueezeKeepsFree(s: string, pattern: string, ci: bool)
    requires pattern != [] && NoSpaces(pattern) && Free(s, pattern, ci)
    ensures Free(Squeeze(s), pattern, ci)
  {
    var collapsed := Collapse(s);
    CollapseKeepsFree(s, pattern, ci);
    TrimKeepsFree(collapsed, pattern, ci);
  }

  lemma TrimKeepsFree(s: string, pattern: string, ci: bool)
    requires Free(s, pattern, ci)
    ensures Free(Trim(s), pattern, ci)
  {
    var a := LeadingSpaces(s);
    var r := Trim(s);
    FreeSliceIs(s, a, a + |r|, r, pattern, ci);
  }

  lemma FreeSliceIs(s: string, a: nat, b: nat, r: string, pattern: string, ci: bool)
    requires a <= b <= |s| && Free(s, pattern, ci) && r == s[a..b]
    ensures Free(r, pattern, ci)
  {
    FreeSlice(s, a, b, pattern, ci);
  }

  /** Squeezing trimmed, single-spaced text changes nothing. */
  lemma SqueezeIdentity(s: string)
    requires Trimmed(s) && SingleSpaced(s)
    ensures Squeeze(s) == s
  {
    CollapseIdentity(s);
    TrimIdentity(s);
  }

  /**
   * The service client's chain: fences, then `--` comments, then whitespace
   * runs, then trim. The result is trimmed, single-spaced (so it holds no
   * newline and no tab) and holds no "--" and no "```".
   */
  function CleanCompletion(raw: string): (r: string)
    ensures Trimmed(r) && SingleSpaced(r)
    ensures Free(r, "--", false) && Free(r, "```", false)
  {
    var fenced := StripFences(raw);
    var uncommented := StripComments(fenced, "--", false);
    StripCommentsKeepsFree(fenced, "--", false, "```", false);
    SqueezeKeepsFree(uncommented, "--", false);
    SqueezeKeepsFree(uncommented, "```", false);
    Squeeze(uncommented)
  }

  /** Cleaning cleaned text changes nothing. */
  lemma CleanCompletionIdempotent(raw: string)
    ensures CleanCompletion(CleanCompletion(raw)) == CleanCompletion(raw)
  {
    CleanIsFixed(CleanCompletion(raw));
  }

  /** Text that is already trimmed, single-spaced and free of "--" and "```" comes through cleaning unchanged. */
  lemma CleanIsFixed(x: string)
    requires Trimmed(x) && SingleSpaced(x) && Free(x, "--", false) && Free(x, "```", false)
    ensures CleanCompletion(x) == x
  {
    StripFencesIdentity(x);
    StripCommentsIdentity(x, "--", false);
    SqueezeIdentity(x);
  }

  /** No fence, no `--` and no `note:` in any case. */
  predicate NoiseFree(s: string) {
    Free(s, "--", false) && Free(s, "```", false) && Free(s, "Note:", true)
  }

  /** Fences, `Note:` comments (any case) and `--` comments removed, in that order. */
  function StripGeneratedNoise(raw: string): (r: string)
    ensures NoiseFree(r)
  {
    MarkersHaveNoSpaces();
    var fenced := StripFences(raw);
    var noNotes := StripComments(fenced, "Note:", true);
    StripCommentsKeepsFree(fenced, "Note:", true, "```", false);
    StripCommentsKeepsFree(noNotes, "--", false, "```", false);
    StripCommentsKeepsFree(noNotes, "--", false, "Note:", true);
    StripComments(noNotes, "--", false)
  }

  lemma MarkersHaveNoSpaces()
    ensures NoSpaces("--") && NoSpaces("```") && NoSpaces("Note:")
  {
    assert "Note:" == ['N', 'o', 't', 'e', ':'];
  }

  lemma SqueezeKeepsNoiseFree(s: string)
    requires NoiseFree(s)
    ensures NoiseFree(Squeeze(s))
  {
    MarkersHaveNoSpaces();
    SqueezeKeepsFree(s, "--", false);
    SqueezeKeepsFree(s, "```", false);
    SqueezeKeepsFree(s, "Note:", true);
  }

  lemma StripLimitKeepsNoiseFree(t: string)
    requires NoiseFree(t)
    ensures NoiseFree(StripLimit(t))
  {
    StripLimitKeepsFree(t, "--", false);
    StripLimitKeepsFree(t, "```", false);
    StripLimitKeepsFree(t, "Note:", true);
  }

  /**
   * The application's chain: fences, `Note:` comments, `--` comments,
   * whitespace runs, trim, then a trailing LIMIT clause. The result is
   * single-spaced and holds no "```", no "--" and no "note:" in any case; it
   * is the squeezed text cut before the leftmost LIMIT tail, and all of it
   * when no LIMIT tail occurs.
   */
  function CleanGenerated(raw: string): (r: string)
    ensures SingleSpaced(r) && NoiseFree(r)
    ensures var t := Squeeze(StripGeneratedNoise(raw));
      |r| <= |t| && r == t[..|r|] && (|r| < |t| ==> IsLimitTail(t[|r|..]))
    ensures var t := Squeeze(StripGeneratedNoise(raw));
      forall j :: 0 <= j < |r| ==> !IsLimitTail(t[j..])
    ensures var t := Squeeze(StripGeneratedNoise(raw));
      |r| == |t| ==> forall j :: 0 <= j <= |t| ==> !IsLimitTail(t[j..])
  {
    var noise := StripGeneratedNoise(raw);
    var t := Squeeze(noise);
    SqueezeKeepsNoiseFree(noise);
    StripLimitKeepsNoiseFree(t);
    StripLimitKeepsSingleSpaced(t);
    StripLimit(t)
  }

  lemma StripLimitKeepsSingleSpaced(t: string)
    requires SingleSpaced(t)
    ensures SingleSpaced(StripLimit(t))
  {
    SingleSpacedSlice(t, 0, |StripLimit(t)|);
    assert t[0..|StripLimit(t)|] == StripLimit(t);
  }

  lemma StripLimitKeepsFree(t: string, pattern: string, ci: bool)
    requires Free(t, pattern, ci)
    ensures Free(StripLimit(t), pattern, ci)
  {
    FreeSlice(t, 0, |StripLimit(t)|, pattern, ci);
  }
}
