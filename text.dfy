/**
 * The JavaScript string operations the engine relies on: `trim`, the `\s`
 * character class, `split` and `join` on a literal separator, `includes`,
 * and the decimal rendering of a non-negative integer.
 */
module Text {
  import opened Wrappers

  /** The characters matched by JavaScript's `\s` and removed by `String.prototype.trim`. */
  predicate IsSpace(c: char) {
    || c == ' ' || c == '\t' || c == '\n' || c == '\r' || c == '\U{000B}' || c == '\U{000C}'
    || c == '\U{00A0}' || c == '\U{1680}' || ('\U{2000}' <= c <= '\U{200A}')
    || c == '\U{2028}' || c == '\U{2029}' || c == '\U{202F}' || c == '\U{205F}'
    || c == '\U{3000}' || c == '\U{FEFF}'
  }

  /** The characters that end a line for JavaScript's `.` (which matches anything else). */
  predicate IsLineTerminator(c: char) {
    c == '\n' || c == '\r' || c == '\U{2028}' || c == '\U{2029}'
  }

  predicate IsDigit(c: char) {
    '0' <= c <= '9'
  }

  predicate StartsWith(s: string, prefix: string) {
    |prefix| <= |s| && s[..|prefix|] == prefix
  }

  /** No whitespace at either end. */
  predicate Trimmed(s: string) {
    s == [] || (!IsSpace(s[0]) && !IsSpace(s[|s| - 1]))
  }

  /** The length of the run of whitespace that starts `s`. */
  function LeadingSpaces(s: string): (n: nat)
    ensures n <= |s|
    ensures forall i :: 0 <= i < n ==> IsSpace(s[i])
    ensures n < |s| ==> !IsSpace(s[n])
  {
    if s != [] && IsSpace(s[0]) then 1 + LeadingSpaces(s[1..]) else 0
  }

  /** Drops trailing whitespace. */
  function TrimEnd(s: string): (r: string)
    ensures |r| <= |s| && r == s[..|r|]
    ensures r == [] || !IsSpace(r[|r| - 1])
    ensures forall i :: |r| <= i < |s| ==> IsSpace(s[i])
  {
    if s != [] && IsSpace(s[|s| - 1]) then TrimEnd(s[..|s| - 1]) else s
  }

  /**
   * `String.prototype.trim`: the result is the slice of the input that starts
   * after its leading whitespace, with only whitespace cut off after it.
   */
  function Trim(s: string): (r: string)
    ensures Trimmed(r)
    ensures LeadingSpaces(s) + |r| <= |s|
    ensures r == s[LeadingSpaces(s)..LeadingSpaces(s) + |r|]
    ensures forall i :: LeadingSpaces(s) + |r| <= i < |s| ==> IsSpace(s[i])
  {
    var a := LeadingSpaces(s);
    var r := TrimEnd(s[a..]);
    assert r == s[a..a + |r|];
    SpacesAfter(s, a, |r|);
    r
  }

  /** Whitespace from index `m` of `s[a..]` on is whitespace from index `a + m` of `s` on. */
  lemma SpacesAfter(s: string, a: nat, m: nat)
    requires a + m <= |s|
    requires forall i :: m <= i < |s[a..]| ==> IsSpace(s[a..][i])
    ensures forall i :: a + m <= i < |s| ==> IsSpace(s[i])
  {
    forall i | a + m <= i < |s|
      ensures IsSpace(s[i])
    {
      assert s[i] == s[a..][i - a];
    }
  }

  /** The least index at which `sep` occurs in `s`, if any. */
  function IndexOf(s: string, sep: string): (r: Option<nat>)
    requires sep != []
    ensures r.Some? ==> r.value <= |s| && StartsWith(s[r.value..], sep)
    ensures r.Some? ==> forall j :: 0 <= j < r.value ==> !StartsWith(s[j..], sep)
    ensures r.None? ==> forall j :: 0 <= j <= |s| ==> !StartsWith(s[j..], sep)
    decreases |s|
  {
    if StartsWith(s, sep) then Some(0)
    else if s == [] then None
    else
      match IndexOf(s[1..], sep)
      case None =>
        assert forall j :: 1 <= j <= |s| ==> s[j..] == s[1..][j - 1..];
        None
      case Some(i) =>
        assert forall j :: 1 <= j <= i + 1 ==> s[j..] == s[1..][j - 1..];
        Some(i + 1)
  }

  /**
   * Where a regular expression first matches: the least position at or
   * after `from` where `p` holds of the text from there on. The engine tries
   * each starting position in turn, left to right.
   */
  function Leftmost(s: string, from: nat, p: string -> bool): (r: Option<nat>)
    requires from <= |s|
    ensures r.Some? ==> from <= r.value <= |s| && p(s[r.value..])
    ensures r.Some? ==> forall j :: from <= j < r.value ==> !p(s[j..])
    ensures r.None? ==> forall j :: from <= j <= |s| ==> !p(s[j..])
    decreases |s| - from
  {
    if p(s[from..]) then Some(from)
    else if from == |s| then None
    else Leftmost(s, from + 1, p)
  }

  /** `String.prototype.includes`. */
  predicate Contains(s: string, part: string)
    requires part != []
  {
    IndexOf(s, part).Some?
  }

  /**
   * `String.prototype.split` with a literal separator: the pieces between
   * left-to-right, non-overlapping occurrences of `sep`. No piece contains `sep`,
   * and joining the pieces with `sep` gives back `s`. Each cut is made at the
   * first occurrence of `sep` in what remains, so a self-overlapping separator
   * is cut left to right without overlap: every piece but the last, followed
   * by `sep`, has its first occurrence of `sep` right after the piece.
   */
  function Split(s: string, sep: string): (r: seq<string>)
    requires sep != []
    ensures |r| >= 1
    ensures forall k :: 0 <= k < |r| ==> IndexOf(r[k], sep).None?
    ensures forall k {:trigger IndexOf(r[k] + sep, sep)} :: 0 <= k < |r| - 1 ==> IndexOf(r[k] + sep, sep) == Some(|r[k]|)
    ensures Join(r, sep) == s
    decreases |s|
  {
    match IndexOf(s, sep)
    case None => [s]
    case Some(i) =>
      PrefixBeforeFirstIsFree(s, sep, i);
      FirstCut(s, sep, i);
      var parts := Split(s[i + |sep|..], sep);
      JoinFront(s[..i], parts, sep);
      SliceAround(s, i, sep);
      var r := [s[..i]] + parts;
      forall k | 1 <= k < |r| - 1
        ensures IndexOf(r[k] + sep, sep) == Some(|r[k]|)
      {
        assert r[k] == parts[k - 1];
        assert IndexOf(parts[k - 1] + sep, sep) == Some(|parts[k - 1]|);
      }
      r
  }

  /** Where `sep` first occurs at `i`, the text before it followed by `sep` has its first occurrence at `i` too. */
  lemma FirstCut(s: string, sep: string, i: nat)
    requires sep != [] && i <= |s| && StartsWith(s[i..], sep)
    requires forall j :: 0 <= j < i ==> !StartsWith(s[j..], sep)
    ensures IndexOf(s[..i] + sep, sep) == Some(i)
  {
    var t := s[..i] + sep;
    assert t[i..] == sep;
    forall j | 0 <= j < i
      ensures !StartsWith(t[j..], sep)
    {
      SameWindow(s, sep, i, j);
    }
    IndexOfIs(t, sep, i);
  }

  /** A window of length `|sep|` that starts before `i` reads the same in `s` and in `s[..i] + sep`. */
  lemma SameWindow(s: string, sep: string, i: nat, j: nat)
    requires i <= |s| && StartsWith(s[i..], sep) && j < i
    ensures StartsWith((s[..i] + sep)[j..], sep) == StartsWith(s[j..], sep)
  {
    var t := s[..i] + sep;
    assert forall k :: j <= k < i + |sep| ==> t[k] == s[k] by {
      forall k | j <= k < i + |sep|
        ensures t[k] == s[k]
      {
        if k >= i {
          assert s[k] == s[i..][..|sep|][k - i];
        }
      }
    }
    assert t[j..][..|sep|] == s[j..][..|sep|];
  }

  /** An occurrence at `i` with none before it is the one `IndexOf` finds. */
  lemma IndexOfIs(t: string, sep: string, i: nat)
    requires sep != [] && i <= |t| && StartsWith(t[i..], sep)
    requires forall j :: 0 <= j < i ==> !StartsWith(t[j..], sep)
    ensures IndexOf(t, sep) == Some(i)
  {
    var r := IndexOf(t, sep);
    if r.Some? && r.value != i {
      assert false;
    }
  }

  lemma PrefixBeforeFirstIsFree(s: string, sep: string, i: nat)
    requires sep != [] && i <= |s|
    requires forall j :: 0 <= j < i ==> !StartsWith(s[j..], sep)
    ensures IndexOf(s[..i], sep).None?
  {
    forall j | 0 <= j <= i
      ensures !StartsWith(s[..i][j..], sep)
    {
      if j < i && |sep| <= i - j {
        SliceWindow(s, i, j, |sep|);
      }
    }
  }

  /** A window inside the prefix `s[..i]` is the same window of `s`. */
  lemma SliceWindow(s: string, i: nat, j: nat, n: nat)
    requires j + n <= i <= |s|
    ensures s[..i][j..][..n] == s[j..][..n]
  {
    assert forall k :: 0 <= k < n ==> s[..i][j..][..n][k] == s[j + k] == s[j..][..n][k];
  }

  /** Trimming trimmed text changes nothing. */
  lemma TrimIdentity(s: string)
    requires Trimmed(s)
    ensures Trim(s) == s
  {
    assert LeadingSpaces(s) == 0;
    assert TrimEnd(s) == s;
  }

  /** A string with no occurrence of a one-character separator does not hold that character. */
  lemma FreeOfChar(x: string, c: char)
    requires IndexOf(x, [c]).None?
    ensures c !in x
  {
    forall j | 0 <= j < |x|
      ensures x[j] != c
    {
      assert !StartsWith(x[j..], [c]);
      assert x[j..][..1] == [x[j]];
    }
  }

  /** `Array.prototype.join` with a literal separator. */
  function Join(xs: seq<string>, sep: string): (r: string)
    ensures |xs| == 1 ==> r == xs[0]
  {
    if xs == [] then "" else if |xs| == 1 then xs[0] else xs[0] + sep + Join(xs[1..], sep)
  }

  /** Joining pieces free of a character with a separator free of it gives text free of it. */
  lemma {:induction false} JoinAvoids(xs: seq<string>, sep: string, c: char)
    requires c !in sep && forall k :: 0 <= k < |xs| ==> c !in xs[k]
    ensures c !in Join(xs, sep)
  {
    if |xs| > 1 {
      JoinAvoids(xs[1..], sep, c);
    }
  }


  /** An occurrence of `sep` at `i` splits `s` into what precedes it, `sep`, and what follows it. */
  lemma SliceAround(s: string, i: nat, sep: string)
    requires i <= |s| && StartsWith(s[i..], sep)
    ensures s == s[..i] + sep + s[i + |sep|..]
  {
    assert s[i..][..|sep|] == s[i..i + |sep|];
    assert s == s[..i] + s[i..i + |sep|] + s[i + |sep|..];
  }

  /** A piece put in front of a non-empty list joins as the piece, the separator, then the list joined. */
  lemma JoinFront(x: string, xs: seq<string>, sep: string)
    requires |xs| >= 1
    ensures Join([x] + xs, sep) == x + sep + Join(xs, sep)
  {
    assert ([x] + xs)[1..] == xs;
  }

  /** A string without the separator's first character holds no occurrence of it. */
  lemma FreeHasNoOccurrence(x: string, sep: string)
    requires sep != [] && sep[0] !in x
    ensures forall j :: 0 <= j <= |x| ==> !StartsWith(x[j..], sep)
  {
    forall j | 0 <= j <= |x|
      ensures !StartsWith(x[j..], sep)
    {
      if j < |x| && |sep| <= |x| - j {
        assert x[j..][..|sep|][0] == x[j];
        assert x[j] in x;
      }
    }
  }

  /** A piece that does not hold the separator's first character splits to itself. */
  lemma SplitFree(x: string, sep: string)
    requires sep != [] && sep[0] !in x
    ensures IndexOf(x, sep).None?
    ensures Split(x, sep) == [x]
  {
    FreeHasNoOccurrence(x, sep);
  }

  /** A separator that follows a piece free of its first character is found right after that piece. */
  lemma IndexOfAfterFree(x: string, sep: string, rest: string)
    requires sep != [] && sep[0] !in x
    ensures IndexOf(x + sep + rest, sep) == Some(|x|)
  {
    var s := x + sep + rest;
    assert s[|x|..][..|sep|] == sep;
    forall j | 0 <= j < |x|
      ensures !StartsWith(s[j..], sep)
    {
      if |sep| <= |s| - j {
        assert s[j..][..|sep|][0] == x[j];
        assert x[j] in x;
      }
    }
  }

  /**
   * Joining and then splitting recovers the pieces, provided no piece holds
   * the separator's first character (true of base64 text, whose alphabet has no `|`).
   */
  lemma {:induction false} SplitJoin(xs: seq<string>, sep: string)
    requires sep != [] && |xs| >= 1
    requires forall k :: 0 <= k < |xs| ==> sep[0] !in xs[k]
    ensures Split(Join(xs, sep), sep) == xs
  {
    if |xs| == 1 {
      SplitFree(xs[0], sep);
    } else {
      JoinCons(xs, sep);
      SplitAfterFree(xs[0], sep, Join(xs[1..], sep));
      SplitJoin(xs[1..], sep);
      assert xs == [xs[0]] + xs[1..];
    }
  }

  /** A list of two or more pieces joins as its first piece, the separator, then the rest joined. */
  lemma JoinCons(xs: seq<string>, sep: string)
    requires |xs| >= 2
    ensures Join(xs, sep) == xs[0] + sep + Join(xs[1..], sep)
  {
  }

  /** Text free of the separator's first character, then the separator: its first piece. */
  lemma SplitAfterFree(x: string, sep: string, rest: string)
    requires sep != [] && sep[0] !in x
    ensures Split(x + sep + rest, sep) == [x] + Split(rest, sep)
  {
    IndexOfAfterFree(x, sep, rest);
    var s := x + sep + rest;
    assert s[..|x|] == x;
    assert s[|x| + |sep|..] == rest;
  }

  function DigitChar(d: nat): (c: char)
    requires d < 10
    ensures IsDigit(c)
  {
    (d + '0' as int) as char
  }

  /** The number a string of decimal digits denotes. */
  function DigitsValue(s: string): int
    requires forall i :: 0 <= i < |s| ==> IsDigit(s[i])
  {
    if s == [] then 0 else 10 * DigitsValue(s[..|s| - 1]) + (s[|s| - 1] as int - '0' as int)
  }

  /** `Number.prototype.toString()` on a non-negative integer. */
  function NatToString(n: nat): (r: string)
    ensures |r| >= 1 && forall i :: 0 <= i < |r| ==> IsDigit(r[i])
  {
    if n < 10 then [DigitChar(n)] else NatToString(n / 10) + [DigitChar(n % 10)]
  }

  /** The length of the run of decimal digits that starts `s`. */
  function LeadingDigits(s: string): (n: nat)
    ensures n <= |s|
    ensures forall i :: 0 <= i < n ==> IsDigit(s[i])
    ensures n < |s| ==> !IsDigit(s[n])
  {
    if s != [] && IsDigit(s[0]) then 1 + LeadingDigits(s[1..]) else 0
  }

  /** The decimal rendering denotes the number it renders. */
  lemma {:induction false} NatToStringValue(n: nat)
    ensures DigitsValue(NatToString(n)) == n
  {
    if n >= 10 {
      NatToStringValue(n / 10);
      var r := NatToString(n);
      assert r[..|r| - 1] == NatToString(n / 10);
    }
  }

  /** Distinct numbers have distinct renderings. */
  lemma NatToStringInjective(a: nat, b: nat)
    requires NatToString(a) == NatToString(b)
    ensures a == b
  {
    NatToStringValue(a);
    NatToStringValue(b);
  }
}
