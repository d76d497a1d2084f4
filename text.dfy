/**
 * The slice of Rust's `str` API that the line parser relies on: `trim`,
 * `trim_end` and `split` with a string pattern, plus `join` as their inverse.
 * A Rust `&str` is modelled as a sequence of Unicode scalar values.
 */
module Text {
  import opened Wrappers

  /** Rust's `char::is_whitespace`: the characters with the Unicode White_Space property. */
  predicate IsWhitespace(c: char) {
    || ('\t' <= c <= '\r')
    || c == ' '
    || c == '\U{0085}'
    || c == '\U{00A0}'
    || c == '\U{1680}'
    || ('\U{2000}' <= c <= '\U{200A}')
    || c == '\U{2028}'
    || c == '\U{2029}'
    || c == '\U{202F}'
    || c == '\U{205F}'
    || c == '\U{3000}'
  }

  /** `str::trim_start`: drop the leading whitespace. */
  function TrimStart(s: string): (r: string)
    ensures |r| <= |s| && r == s[|s| - |r|..]
    ensures r != [] ==> !IsWhitespace(r[0])
    ensures forall i | 0 <= i < |s| - |r| :: IsWhitespace(s[i])
    decreases |s|
  {
    if s != [] && IsWhitespace(s[0]) then TrimStart(s[1..]) else s
  }

  /** `str::trim_end`: drop the trailing whitespace. */
  function TrimEnd(s: string): (r: string)
    ensures |r| <= |s| && r == s[..|r|]
    ensures r != [] ==> !IsWhitespace(r[|r| - 1])
    ensures forall i | |r| <= i < |s| :: IsWhitespace(s[i])
    decreases |s|
  {
    if s != [] && IsWhitespace(s[|s| - 1]) then TrimEnd(s[..|s| - 1]) else s
  }

  /** `str::trim`: drop whitespace at both ends. */
  function Trim(s: string): string {
    TrimEnd(TrimStart(s))
  }

  /** A text with no whitespace at either end is its own trim. */
  lemma TrimUnchanged(s: string)
    requires s != [] ==> !IsWhitespace(s[0]) && !IsWhitespace(s[|s| - 1])
    ensures Trim(s) == s
  {
  }

  /** `sep` occurs in `s` starting at index `i`. */
  predicate OccursAt(s: string, sep: string, i: nat) {
    i + |sep| <= |s| && s[i..i + |sep|] == sep
  }

  ghost predicate NoOccurrence(s: string, sep: string) {
    forall i: nat :: !OccursAt(s, sep, i)
  }

  /**
   * No proper suffix of `sep` is also a prefix of it, so two occurrences
   * of `sep` can never overlap. Both separators the parser uses, " " and
   * "->", have this property.
   */
  predicate Unbordered(sep: string) {
    forall k | 0 < k < |sep| :: sep[k..] != sep[..|sep| - k]
  }

  lemma SeparatorsUnbordered()
    ensures Unbordered(" ") && Unbordered("->")
  {
    assert "->"[1..] == ">" && "->"[..1] == "-";
  }

  lemma OccursShifted(s: string, sep: string, j: nat)
    requires s != []
    ensures OccursAt(s[1..], sep, j) <==> OccursAt(s, sep, j + 1)
  {
    if j + 1 + |sep| <= |s| {
      assert s[1..][j..j + |sep|] == s[j + 1..j + 1 + |sep|];
    }
  }

  /** The leftmost occurrence of `sep` in `s`, as the searcher behind `str::split` finds it. */
  function FindFirst(s: string, sep: string): (r: Option<nat>)
    requires sep != []
    ensures r.Some? ==> r.value + |sep| <= |s|
    decreases |s|
  {
    if |s| < |sep| then None
    else if s[..|sep|] == sep then Some(0)
    else
      match FindFirst(s[1..], sep)
      case None => None
      case Some(i) => Some(i + 1)
  }

  /** `FindFirst` finds an occurrence, none lies before it, and it reports none only when there is none. */
  lemma {:induction false} FindFirstLeftmost(s: string, sep: string)
    requires sep != []
    ensures var r := FindFirst(s, sep);
      && (r.Some? ==> OccursAt(s, sep, r.value))
      && (r.Some? ==> forall j: nat | j < r.value :: !OccursAt(s, sep, j))
      && (r.None? <==> NoOccurrence(s, sep))
    decreases |s|
  {
    if |s| < |sep| {
    } else if s[..|sep|] == sep {
      assert OccursAt(s, sep, 0);
    } else {
      FindFirstLeftmost(s[1..], sep);
      assert !OccursAt(s, sep, 0);
      forall j: nat ensures OccursAt(s[1..], sep, j) <==> OccursAt(s, sep, j + 1) {
        OccursShifted(s, sep, j);
      }
      assert forall j: nat | 0 < j :: OccursAt(s, sep, j) ==> OccursAt(s[1..], sep, j - 1);
    }
  }

  /** `ps` glued together with `sep` between neighbours: the inverse of `Split`. */
  function Join(ps: seq<string>, sep: string): string
    decreases |ps|
  {
    if |ps| == 0 then ""
    else if |ps| == 1 then ps[0]
    else ps[0] + sep + Join(ps[1..], sep)
  }

  /**
   * `s.split(sep).collect()` for a non-empty pattern: the pieces between
   * successive leftmost non-overlapping occurrences of `sep`.
   */
  function Split(s: string, sep: string): (r: seq<string>)
    requires sep != []
    ensures |r| >= 1
    decreases |s|
  {
    match FindFirst(s, sep)
    case None => [s]
    case Some(i) => [s[..i]] + Split(s[i + |sep|..], sep)
  }

  /** The pieces of `s` join back to `s`, and none of them holds the separator. */
  lemma {:induction false} SplitJoinsBack(s: string, sep: string)
    requires sep != []
    ensures Join(Split(s, sep), sep) == s
    ensures forall k | 0 <= k < |Split(s, sep)| :: NoOccurrence(Split(s, sep)[k], sep)
    decreases |s|
  {
    FindFirstLeftmost(s, sep);
    match FindFirst(s, sep)
    case None =>
    case Some(i) =>
      NoOccurrenceBefore(s, sep, i);
      SplitJoinsBack(s[i + |sep|..], sep);
      SplitStep(s, sep, i);
  }

  /** The text before the leftmost occurrence holds none. */
  lemma NoOccurrenceBefore(s: string, sep: string, i: nat)
    requires sep != [] && i <= |s| && forall j: nat | j < i :: !OccursAt(s, sep, j)
    ensures NoOccurrence(s[..i], sep)
  {
    forall j: nat ensures !OccursAt(s[..i], sep, j) {
      if j + |sep| <= i {
        assert s[..i][j..j + |sep|] == s[j..j + |sep|];
        assert !OccursAt(s, sep, j);
      } else {
        assert |s[..i]| == i;
      }
    }
  }

  /** One step of `Split`: the head piece, then the pieces of the rest. */
  lemma SplitStep(s: string, sep: string, i: nat)
    requires sep != [] && FindFirst(s, sep) == Some(i) && OccursAt(s, sep, i)
    requires Join(Split(s[i + |sep|..], sep), sep) == s[i + |sep|..]
    ensures Split(s, sep) == [s[..i]] + Split(s[i + |sep|..], sep)
    ensures Join(Split(s, sep), sep) == s
  {
    var rest := Split(s[i + |sep|..], sep);
    var ps := [s[..i]] + rest;
    assert ps[0] == s[..i] && ps[1..] == rest && |ps| >= 2;
    assert Join(ps, sep) == s[..i] + sep + Join(rest, sep);
    assert s[i..i + |sep|] == sep;
    assert s == s[..i] + s[i..i + |sep|] + s[i + |sep|..];
  }

  /** An occurrence at index `|p|` is the first one when `p` holds none and `sep` cannot overlap itself. */
  lemma FirstOccurrenceAfter(p: string, sep: string, q: string)
    requires sep != [] && Unbordered(sep) && NoOccurrence(p, sep)
    ensures FindFirst(p + sep + q, sep) == Some(|p|)
  {
    var s := p + sep + q;
    FindFirstLeftmost(s, sep);
    assert s[|p|..|p| + |sep|] == sep;
    assert OccursAt(s, sep, |p|);
    forall j: nat | j < |p| ensures !OccursAt(s, sep, j) {
      if j + |sep| <= |p| {
        assert p[j..j + |sep|] == s[j..j + |sep|];
        assert !OccursAt(p, sep, j);
      } else if j + |sep| <= |s| {
        var k := |p| - j;
        assert s[j..j + |sep|][k..] == sep[..|sep| - k];
        assert sep[k..] != sep[..|sep| - k];
      }
    }
  }

  /** Splitting undoes joining: the pieces of a joined list are the list itself. */
  lemma {:induction false} SplitJoin(ps: seq<string>, sep: string)
    requires sep != [] && Unbordered(sep) && |ps| >= 1
    requires forall k | 0 <= k < |ps| :: NoOccurrence(ps[k], sep)
    ensures Split(Join(ps, sep), sep) == ps
    decreases |ps|
  {
    if |ps| > 1 {
      var rest := Join(ps[1..], sep);
      FirstOccurrenceAfter(ps[0], sep, rest);
      var s := ps[0] + sep + rest;
      assert s[..|ps[0]|] == ps[0];
      assert s[|ps[0]| + |sep|..] == rest;
      SplitJoin(ps[1..], sep);
    } else {
      FindFirstLeftmost(ps[0], sep);
    }
  }

  /** The number of (pairwise disjoint, for an unbordered `sep`) occurrences of `sep` in `s`. */
  function Occurrences(s: string, sep: string): nat
    requires sep != []
    decreases |s|
  {
    if |s| < |sep| then 0
    else (if OccursAt(s, sep, 0) then 1 else 0) + Occurrences(s[1..], sep)
  }

  /** A prefix with no occurrence adds nothing to the count. */
  lemma {:induction false} OccurrencesSkip(s: string, sep: string, n: nat)
    requires sep != [] && n <= |s|
    requires forall j: nat | j < n :: !OccursAt(s, sep, j)
    ensures Occurrences(s, sep) == Occurrences(s[n..], sep)
    decreases n
  {
    if n > 0 {
      if |s| < |sep| {
        OccurrencesShort(s[n..], sep);
      } else {
        assert !OccursAt(s, sep, 0);
        forall j: nat | j < n - 1 ensures !OccursAt(s[1..], sep, j) {
          OccursShifted(s, sep, j);
        }
        OccurrencesSkip(s[1..], sep, n - 1);
        assert s[1..][n - 1..] == s[n..];
      }
    }
  }

  lemma OccurrencesShort(s: string, sep: string)
    requires sep != [] && |s| < |sep|
    ensures Occurrences(s, sep) == 0
  {
  }

  /** Inside an occurrence of an unbordered separator no other occurrence starts. */
  lemma NoOverlap(t: string, sep: string)
    requires sep != [] && Unbordered(sep) && OccursAt(t, sep, 0)
    ensures forall j: nat | j < |sep| - 1 :: !OccursAt(t[1..], sep, j)
  {
    forall j: nat | j < |sep| - 1 ensures !OccursAt(t[1..], sep, j) {
      var k := j + 1;
      if k + |sep| <= |t| {
        assert t[1..][j..j + |sep|] == t[k..k + |sep|];
        assert t[k..k + |sep|][..|sep| - k] == sep[k..];
        assert sep[k..] != sep[..|sep| - k];
      }
    }
  }

  /** Counting from the first occurrence on: that one, then the ones after it. */
  lemma OccurrencesFromFirst(s: string, sep: string, i: nat)
    requires sep != [] && Unbordered(sep) && FindFirst(s, sep) == Some(i)
    ensures Occurrences(s, sep) == 1 + Occurrences(s[i + |sep|..], sep)
  {
    FindFirstLeftmost(s, sep);
    OccurrencesSkip(s, sep, i);
    var t := s[i..];
    assert t[..|sep|] == s[i..i + |sep|];
    NoOverlap(t, sep);
    OccurrencesSkip(t[1..], sep, |sep| - 1);
    assert t[1..][|sep| - 1..] == s[i + |sep|..];
  }

  /** Splitting yields one more piece than there are occurrences of the separator. */
  lemma {:induction false} PieceCount(s: string, sep: string)
    requires sep != [] && Unbordered(sep)
    ensures |Split(s, sep)| == Occurrences(s, sep) + 1
    decreases |s|
  {
    FindFirstLeftmost(s, sep);
    match FindFirst(s, sep)
    case None =>
      OccurrencesSkip(s, sep, |s|);
      assert Occurrences(s[|s|..], sep) == 0;
    case Some(i) =>
      OccurrencesFromFirst(s, sep, i);
      PieceCount(s[i + |sep|..], sep);
  }

  /** A separator one of whose characters is missing from `t` cannot occur in `t`. */
  lemma NoOccurrenceWithout(t: string, sep: string, k: nat)
    requires k < |sep| && sep[k] !in t
    ensures NoOccurrence(t, sep)
  {
    forall i: nat ensures !OccursAt(t, sep, i) {
      if i + |sep| <= |t| {
        assert t[i..i + |sep|][k] == t[i + k];
        assert t[i + k] in t;
      }
    }
  }

  /** A one-character separator occurs exactly where that character does. */
  lemma NoOccurrenceChar(t: string, c: char)
    ensures NoOccurrence(t, [c]) <==> c !in t
  {
    if c !in t {
      NoOccurrenceWithout(t, [c], 0);
    } else {
      var i :| 0 <= i < |t| && t[i] == c;
      assert t[i..i + 1] == [c];
      assert OccursAt(t, [c], i);
    }
  }

  /** A joined text ends with the last piece. */
  lemma {:induction false} JoinEndsWithLast(ps: seq<string>, sep: string)
    requires |ps| >= 1
    ensures var j := Join(ps, sep); var last := ps[|ps| - 1];
      |last| <= |j| && j[|j| - |last|..] == last
    decreases |ps|
  {
    if |ps| > 1 {
      JoinEndsWithLast(ps[1..], sep);
    }
  }
}
