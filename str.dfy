/** The `str` namespace of jbridge.hpp: compile-time string algebra over
    fixed-size char arrays. A `std::array<char, N>` is a `seq<char>` of
    length N; a string literal's array holds its characters and then '\0'. */
module Str {
  import opened Wrappers

  /** `s` holds exactly one NUL-terminated string: one '\0', in its last slot. */
  predicate CString(s: seq<char>) {
    |s| >= 1 && s[|s| - 1] == '\0' && '\0' !in s[..|s| - 1]
  }

  /** Every array of `parts` is a NUL-terminated string. */
  predicate AllCStrings(parts: seq<seq<char>>) {
    forall i :: 0 <= i < |parts| ==> CString(parts[i])
  }

  /** The characters of an array before its last slot (its text, for a C string). */
  function Text(s: seq<char>): seq<char>
    requires |s| >= 1
  {
    s[..|s| - 1]
  }

  /** The texts of `parts`, one after the other. */
  function Texts(parts: seq<seq<char>>): seq<char>
    requires forall i :: 0 <= i < |parts| ==> |parts[i]| >= 1
  {
    if parts == [] then [] else Text(parts[0]) + Texts(parts[1..])
  }

  lemma {:induction false} TextsAppend(a: seq<seq<char>>, b: seq<seq<char>>)
    requires forall i :: 0 <= i < |a| ==> |a[i]| >= 1
    requires forall i :: 0 <= i < |b| ==> |b[i]| >= 1
    ensures Texts(a + b) == Texts(a) + Texts(b)
  {
    if a != [] {
      assert (a + b)[1..] == a[1..] + b;
      TextsAppend(a[1..], b);
    } else {
      assert a + b == b;
    }
  }

  lemma TextsOfPair(a: seq<char>, b: seq<char>)
    requires |a| >= 1 && |b| >= 1
    ensures Texts([a, b]) == Text(a) + Text(b)
  {
    assert [a, b][1..] == [b];
    assert [b][1..] == [];
    assert Texts([b]) == Text(b) + Texts([]);
  }

  /** The storage of the string literal `text` — its characters, then the
      terminator — which `arrayify` copies element by element
      (jbridge.hpp:59-67). */
  function Arrayify(text: string): (r: seq<char>)
    ensures |r| == |text| + 1 && r[..|text|] == text && r[|text|] == '\0'
    ensures '\0' !in text ==> CString(r) && Text(r) == text
  {
    text + ['\0']
  }

  /** `lhs + rhs` (jbridge.hpp:49-57): an array of I + J - 1 chars holding
      all of `lhs` but its last char (the terminator), then all of `rhs`. */
  function Concat(lhs: seq<char>, rhs: seq<char>): (r: seq<char>)
    requires |lhs| >= 1
    ensures |r| == |lhs| + |rhs| - 1
    ensures CString(lhs) && CString(rhs) ==> CString(r) && Text(r) == Text(lhs) + Text(rhs)
  {
    var r := lhs[..|lhs| - 1] + rhs;
    assert |rhs| >= 1 ==> r[..|r| - 1] == lhs[..|lhs| - 1] + rhs[..|rhs| - 1];
    r
  }

  /** Concatenation is associative, so the grouping `add_all` folds with
      does not change its result. */
  lemma ConcatAssociative(a: seq<char>, b: seq<char>, c: seq<char>)
    requires |a| >= 1 && |b| >= 1
    ensures Concat(Concat(a, b), c) == Concat(a, Concat(b, c))
  {
    assert Concat(a, b)[..|a| + |b| - 2] == a[..|a| - 1] + b[..|b| - 1];
  }

  /** `add_all` (jbridge.hpp:105-108): the right fold `a1 + (a2 + (… + an))`
      of `operator+` over its arguments. */
  function AddAll(parts: seq<seq<char>>): (r: seq<char>)
    requires |parts| >= 1
    requires forall i :: 0 <= i < |parts| - 1 ==> |parts[i]| >= 1
    ensures |r| >= |parts[|parts| - 1]|
    ensures AllCStrings(parts) ==> CString(r) && Text(r) == Texts(parts)
    decreases |parts|
  {
    if |parts| == 1 then
      assert |parts[0]| >= 1 ==> Texts(parts) == Text(parts[0]) + Texts(parts[1..]);
      parts[0]
    else
      assert AllCStrings(parts) ==> AllCStrings(parts[1..]);
      Concat(parts[0], AddAll(parts[1..]))
  }

  /** `pat` occurs in `s` starting at `pos`. */
  predicate MatchesAt(s: seq<char>, pat: seq<char>, pos: nat) {
    pos + |pat| <= |s| && s[pos..pos + |pat|] == pat
  }

  /** `find_next` (jbridge.hpp:69-84): the first position at or after `start`
      where `pat` occurs in `s`; no position for an empty pattern or one
      longer than the text. */
  method FindNext(s: seq<char>, pat: seq<char>, start: nat) returns (r: Option<nat>)
    ensures r.None? <==> |pat| == 0 || |pat| > |s|
                         || forall p :: start <= p <= |s| - |pat| ==> !MatchesAt(s, pat, p)
    ensures r.Some? ==> 0 < |pat| <= |s| && start <= r.value <= |s| - |pat|
                        && MatchesAt(s, pat, r.value)
                        && forall p :: start <= p < r.value ==> !MatchesAt(s, pat, p)
  {
    if |pat| == 0 || |pat| > |s| {
      return None;
    }
    var pos := start;
    while pos <= |s| - |pat|
      invariant start <= pos
      invariant forall p :: start <= p < pos ==> !MatchesAt(s, pat, p)
      decreases |s| - |pat| + 1 - pos
    {
      var j := 0;
      while j < |pat|
        invariant 0 <= j <= |pat|
        invariant s[pos..pos + j] == pat[..j]
      {
        if s[pos + j] != pat[j] {
          assert s[pos..pos + |pat|][j] != pat[j];
          break;
        }
        assert s[pos..pos + j + 1] == s[pos..pos + j] + [s[pos + j]];
        j := j + 1;
      }
      if j == |pat| {
        assert MatchesAt(s, pat, pos);
        return Some(pos);
      }
      pos := pos + 1;
    }
    return None;
  }
}
