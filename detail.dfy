/** The descriptor helpers of jbridge.hpp's `detail` namespace: rewriting a
    C++ scoped name (`java::lang::String`) into a JVM internal class name
    (`java/lang/String`) and wrapping it as a class descriptor. */
module Detail {
  import opened Wrappers
  import opened Str

  /** The two-char pattern `scope_opt` / `window` the rewriters search for
      (a plain `std::array<char, 2>`, with no terminator). */
  const ScopeSeparator: seq<char> := [':', ':']

  /** The scope separator `::` starts at position `i` of `s`. */
  predicate ScopeAt(s: seq<char>, i: int) {
    0 <= i && i + 1 < |s| && s[i] == ':' && s[i + 1] == ':'
  }

  lemma MatchesScopeSeparator(s: seq<char>, p: nat)
    ensures MatchesAt(s, ScopeSeparator, p) <==> ScopeAt(s, p)
  {
    if MatchesAt(s, ScopeSeparator, p) {
      assert s[p..p + 2][0] == s[p] && s[p..p + 2][1] == s[p + 1];
    }
    if ScopeAt(s, p) {
      assert s[p..p + 2] == [s[p], s[p + 1]];
    }
  }

  // ---------------------------------------------------------------------
  // Specification of the rewriting
  // ---------------------------------------------------------------------

  /** The rewriting of `s` from position `i` on: each `::`, found left to
      right without overlap, becomes one `/`; every other char is kept, in
      order. */
  function RewriteFrom(s: seq<char>, i: nat): seq<char>
    requires i <= |s|
    decreases |s| - i
  {
    if i + 2 > |s| then s[i..]
    else if ScopeAt(s, i) then ['/'] + RewriteFrom(s, i + 2)
    else [s[i]] + RewriteFrom(s, i + 1)
  }

  /** The number of `::` that rewriting replaces from position `i` on. */
  function ReplacementsFrom(s: seq<char>, i: nat): nat
    requires i <= |s|
    decreases |s| - i
  {
    if i + 2 > |s| then 0
    else if ScopeAt(s, i) then 1 + ReplacementsFrom(s, i + 2)
    else ReplacementsFrom(s, i + 1)
  }

  /** The whole name rewritten: `java::lang::String` becomes `java/lang/String`. */
  function ScopeToSlash(s: seq<char>): seq<char> {
    RewriteFrom(s, 0)
  }

  /** The number of separators the whole rewriting replaces. */
  function Replacements(s: seq<char>): nat {
    ReplacementsFrom(s, 0)
  }

  /** The reverse rewriting: each `/` back into `::`. */
  function SlashToScope(s: seq<char>): seq<char>
  {
    if s == [] then []
    else if s[0] == '/' then ScopeSeparator + SlashToScope(s[1..])
    else [s[0]] + SlashToScope(s[1..])
  }

  /** The number of occurrences of `c` in `s`. */
  function Count(c: char, s: seq<char>): nat
  {
    if s == [] then 0 else (if s[0] == c then 1 else 0) + Count(c, s[1..])
  }

  /** Each replacement shortens the text by one char: the rewriting of an
      N-char name has N minus the number of replacements chars. */
  lemma {:induction false} RewriteLength(s: seq<char>, i: nat)
    requires i <= |s|
    ensures |RewriteFrom(s, i)| + ReplacementsFrom(s, i) == |s| - i
    decreases |s| - i
  {
    if i + 2 <= |s| {
      if ScopeAt(s, i) {
        RewriteLength(s, i + 2);
      } else {
        RewriteLength(s, i + 1);
      }
    }
  }

  lemma {:induction false} SlashToScopeKeeps(t: seq<char>)
    requires '/' !in t
    ensures SlashToScope(t) == t
  {
    if t != [] {
      assert '/' !in t[1..];
      SlashToScopeKeeps(t[1..]);
      assert t == [t[0]] + t[1..];
    }
  }

  /** No char is altered except the separators: a name without `/` is
      recovered from its rewriting. */
  lemma {:induction false} ScopeToSlashRoundTrip(s: seq<char>, i: nat)
    requires i <= |s| && '/' !in s
    ensures SlashToScope(RewriteFrom(s, i)) == s[i..]
    decreases |s| - i
  {
    if i + 2 > |s| {
      assert forall k :: 0 <= k < |s[i..]| ==> s[i..][k] == s[i + k];
      SlashToScopeKeeps(s[i..]);
    } else {
      var r := RewriteFrom(s, i);
      if ScopeAt(s, i) {
        var rest := RewriteFrom(s, i + 2);
        ScopeToSlashRoundTrip(s, i + 2);
        assert r[1..] == rest;
        assert s[i..] == ScopeSeparator + s[i + 2..];
      } else {
        var rest := RewriteFrom(s, i + 1);
        assert s[i] != '/';
        ScopeToSlashRoundTrip(s, i + 1);
        assert r[1..] == rest;
        assert s[i..] == [s[i]] + s[i + 1..];
      }
    }
  }

  /** One path separator per replaced scope separator, and no other `/`
      appears or disappears. */
  lemma {:induction false} ScopeToSlashCountsSeparators(s: seq<char>, i: nat)
    requires i <= |s|
    ensures Count('/', RewriteFrom(s, i)) == Count('/', s[i..]) + ReplacementsFrom(s, i)
    decreases |s| - i
  {
    if i + 2 <= |s| {
      var r := RewriteFrom(s, i);
      assert s[i..][1..] == s[i + 1..];
      if ScopeAt(s, i) {
        ScopeToSlashCountsSeparators(s, i + 2);
        assert r[1..] == RewriteFrom(s, i + 2);
        assert s[i + 1..][1..] == s[i + 2..];
      } else {
        ScopeToSlashCountsSeparators(s, i + 1);
        assert r[1..] == RewriteFrom(s, i + 1);
      }
    }
  }

  /** The first char of the rewriting. */
  lemma RewriteHead(s: seq<char>, i: nat)
    requires i < |s|
    ensures |RewriteFrom(s, i)| >= 1
    ensures RewriteFrom(s, i)[0] == if ScopeAt(s, i) then '/' else s[i]
  {
  }

  /** No scope separator survives the rewriting. */
  lemma {:induction false} ScopeToSlashLeavesNoScope(s: seq<char>, i: nat)
    requires i <= |s|
    ensures forall j :: !ScopeAt(RewriteFrom(s, i), j)
    decreases |s| - i
  {
    var r := RewriteFrom(s, i);
    if i + 2 <= |s| {
      var next := if ScopeAt(s, i) then i + 2 else i + 1;
      var rest := RewriteFrom(s, next);
      ScopeToSlashLeavesNoScope(s, next);
      assert r == [r[0]] + rest;
      forall j ensures !ScopeAt(r, j) {
        if j >= 1 {
          assert ScopeAt(r, j) ==> ScopeAt(rest, j - 1);
        } else if j == 0 && next == i + 1 && next < |s| {
          RewriteHead(s, next);
        }
      }
    }
  }

  /** A char other than ':' closes the rewriting unchanged. */
  lemma {:induction false} ScopeToSlashAppend(s: seq<char>, c: char, i: nat)
    requires c != ':' && i <= |s|
    ensures RewriteFrom(s + [c], i) == RewriteFrom(s, i) + [c]
    ensures ReplacementsFrom(s + [c], i) == ReplacementsFrom(s, i)
    decreases |s| - i
  {
    var t := s + [c];
    if i == |s| {
      assert t[i..] == [c];
    } else if i + 1 == |s| {
      assert !ScopeAt(t, i);
      assert t[i + 1..] == [c];
    } else {
      assert ScopeAt(t, i) <==> ScopeAt(s, i);
      if ScopeAt(s, i) {
        ScopeToSlashAppend(s, c, i + 2);
      } else {
        ScopeToSlashAppend(s, c, i + 1);
      }
    }
  }

  /** A char absent from the name, other than '/', is absent from its rewriting. */
  lemma {:induction false} ScopeToSlashKeepsAbsent(s: seq<char>, c: char, i: nat)
    requires c != '/' && c !in s && i <= |s|
    ensures c !in RewriteFrom(s, i)
    decreases |s| - i
  {
    if i + 2 <= |s| {
      if ScopeAt(s, i) {
        ScopeToSlashKeepsAbsent(s, c, i + 2);
      } else {
        ScopeToSlashKeepsAbsent(s, c, i + 1);
      }
    }
  }

  // Where the first separator at or after `prev` lies decides the rewriting
  // of the rest of the name; the two lemmas below let the loops of
  // ReplaceScopeToSlash and NamespaceToSignature follow it.

  lemma {:induction false} SplitAtScope(s: seq<char>, prev: nat, pos: nat)
    requires prev <= pos && ScopeAt(s, pos)
    requires forall p :: prev <= p < pos ==> !ScopeAt(s, p)
    ensures RewriteFrom(s, prev) == s[prev..pos] + ['/'] + RewriteFrom(s, pos + 2)
    ensures ReplacementsFrom(s, prev) == 1 + ReplacementsFrom(s, pos + 2)
    decreases pos - prev
  {
    if prev < pos {
      assert !ScopeAt(s, prev);
      assert RewriteFrom(s, prev) == [s[prev]] + RewriteFrom(s, prev + 1);
      SplitAtScope(s, prev + 1, pos);
      assert s[prev..pos] == [s[prev]] + s[prev + 1..pos];
    } else {
      assert s[prev..pos] == [];
    }
  }

  lemma {:induction false} NoScopeFrom(s: seq<char>, prev: nat)
    requires prev <= |s|
    requires forall p :: prev <= p ==> !ScopeAt(s, p)
    ensures RewriteFrom(s, prev) == s[prev..]
    ensures ReplacementsFrom(s, prev) == 0
    decreases |s| - prev
  {
    if prev + 2 <= |s| {
      assert !ScopeAt(s, prev);
      NoScopeFrom(s, prev + 1);
      assert s[prev..] == [s[prev]] + s[prev + 1..];
    }
  }

  /** What FindNext reports when it searches for `::`. */
  lemma ScopeSearch(s: seq<char>, start: nat, r: Option<nat>)
    requires r.None? <==> |s| < 2
                          || forall p :: start <= p <= |s| - 2 ==> !MatchesAt(s, ScopeSeparator, p)
    requires r.Some? ==> start <= r.value <= |s| - 2 && MatchesAt(s, ScopeSeparator, r.value)
                         && forall p :: start <= p < r.value ==> !MatchesAt(s, ScopeSeparator, p)
    ensures r.Some? ==> start <= r.value && r.value + 2 <= |s| && ScopeAt(s, r.value)
                        && forall p :: start <= p < r.value ==> !ScopeAt(s, p)
    ensures r.None? ==> forall p :: start <= p ==> !ScopeAt(s, p)
  {
    if r.Some? {
      MatchesScopeSeparator(s, r.value);
      forall p | start <= p < r.value ensures !ScopeAt(s, p) {
        MatchesScopeSeparator(s, p);
      }
    } else {
      forall p | start <= p ensures !ScopeAt(s, p) {
        MatchesScopeSeparator(s, p);
      }
    }
  }

  // ---------------------------------------------------------------------
  // The rewriting loops
  // ---------------------------------------------------------------------

  /** The copying loop both rewriters run twice: `src[from..to]` goes to
      `dst`, one char after the other, from slot `at` on. */
  method CopyChars(dst: array<char>, at: nat, src: seq<char>, from: nat, to: nat) returns (next: nat)
    requires from <= to <= |src| && at + (to - from) <= dst.Length
    modifies dst
    ensures next == at + (to - from)
    ensures dst[..next] == old(dst[..at]) + src[from..to]
    ensures forall j :: next <= j < dst.Length ==> dst[j] == old(dst[j])
  {
    next := at;
    var i := from;
    while i < to
      invariant from <= i <= to && next == at + (i - from)
      invariant dst[..next] == old(dst[..at]) + src[from..i]
      invariant forall j :: next <= j < dst.Length ==> dst[j] == old(dst[j])
    {
      dst[next] := src[i];
      assert src[from..i + 1] == src[from..i] + [src[i]];
      next := next + 1;
      i := i + 1;
    }
  }

  /** `r` is the position of the first `::` at or after `from`, or no
      position when there is none. */
  ghost predicate FirstScopeFrom(s: seq<char>, from: nat, r: Option<nat>) {
    match r
    case Some(pos) => from <= pos && ScopeAt(s, pos) && forall p :: from <= p < pos ==> !ScopeAt(s, p)
    case None => forall p :: from <= p ==> !ScopeAt(s, p)
  }

  /** `find_next(symbol, {':', ':'}, start)`, read as a statement about
      scope separators. */
  method NextScope(s: seq<char>, start: nat) returns (r: Option<nat>)
    ensures FirstScopeFrom(s, start, r)
  {
    r := FindNext(s, ScopeSeparator, start);
    ScopeSearch(s, start, r);
  }

  /** One round of both rewriters: the text from `prev` up to the separator
      at `pos`, then '/' in its place. What is written so far stays a prefix
      of the whole rewriting, and nothing past it is touched. */
  method CopyRound(dst: array<char>, write: nat, s: seq<char>, prev: nat, pos: nat, ghost whole: seq<char>)
    returns (next: nat)
    requires FirstScopeFrom(s, prev, Some(pos))
    requires write <= |whole| <= dst.Length
    requires dst[..write] + RewriteFrom(s, prev) == whole
    modifies dst
    ensures next <= |whole|
    ensures dst[..next] + RewriteFrom(s, pos + 2) == whole
    ensures ReplacementsFrom(s, prev) == 1 + ReplacementsFrom(s, pos + 2)
    ensures dst[|whole|..] == old(dst[|whole|..])
  {
    SplitAtScope(s, prev, pos);
    ghost var done := dst[..write];
    next := CopyChars(dst, write, s, prev, pos);
    dst[next] := '/';
    assert dst[..next + 1] == done + s[prev..pos] + ['/'];
    next := next + 1;
  }

  /** The last round of both rewriters: with no separator left, the rest of
      the text is copied as it is and completes the rewriting. */
  method CopyTail(dst: array<char>, write: nat, s: seq<char>, prev: nat, ghost whole: seq<char>)
    returns (next: nat)
    requires prev <= |s| && FirstScopeFrom(s, prev, None)
    requires write <= |whole| <= dst.Length
    requires dst[..write] + RewriteFrom(s, prev) == whole
    modifies dst
    ensures next == |whole| && dst[..next] == whole
    ensures ReplacementsFrom(s, prev) == 0
    ensures dst[|whole|..] == old(dst[|whole|..])
  {
    NoScopeFrom(s, prev);
    next := CopyChars(dst, write, s, prev, |s|);
  }

  /** `replace_scope_to_slash` (jbridge.hpp:134-160): writes the rewriting of
      `symbol` into the first slots of `signature`, which must be long enough. */
  method ReplaceScopeToSlash(signature: array<char>, symbol: seq<char>)
    requires |ScopeToSlash(symbol)| <= signature.Length
    modifies signature
    ensures signature[..|ScopeToSlash(symbol)|] == ScopeToSlash(symbol)
    ensures forall j :: |ScopeToSlash(symbol)| <= j < signature.Length ==> signature[j] == old(signature[j])
  {
    ghost var whole := ScopeToSlash(symbol);
    var start: nat, prev: nat, write: nat := 0, 0, 0;
    var maybePos := NextScope(symbol, start);
    while maybePos.Some?
      invariant prev <= |symbol| && start == prev
      invariant write <= |whole| <= signature.Length
      invariant signature[..write] + RewriteFrom(symbol, prev) == whole
      invariant signature[|whole|..] == old(signature[|whole|..])
      invariant FirstScopeFrom(symbol, prev, maybePos)
      decreases |symbol| - prev
    {
      var pos := maybePos.value;
      if pos < prev {
        // find_next never answers before `start`, which is `prev_pos`
        assert false;
        break;
      }
      write := CopyRound(signature, write, symbol, prev, pos, whole);
      prev := pos + |ScopeSeparator|;
      start := prev;
      maybePos := NextScope(symbol, start);
    }
    write := CopyTail(signature, write, symbol, prev, whole);
    assert forall j :: |whole| <= j < signature.Length ==> signature[j] == signature[|whole|..][j - |whole|];
  }

  /** `namespace_to_signature` (jbridge.hpp:162-196): the same rewriting into
      a fresh array of the input's size, whose unused tail stays '\0'. The
      replacement counter it keeps is not returned. */
  method NamespaceToSignature(arr: seq<char>) returns (signature: seq<char>)
    ensures |signature| == |arr|
    ensures signature == ScopeToSlash(arr) + seq(Replacements(arr), _ => '\0')
  {
    var buffer := new char[|arr|](_ => '\0');
    ghost var whole := ScopeToSlash(arr);
    ghost var zeros := seq(Replacements(arr), _ => '\0');
    RewriteLength(arr, 0);
    assert buffer[|whole|..] == zeros;
    var start: nat, prev: nat, write: nat, replacedCount: nat := 0, 0, 0, 0;
    var maybePos := NextScope(arr, start);
    while maybePos.Some?
      invariant prev <= |arr| && start == prev
      invariant write <= |whole| <= buffer.Length
      invariant replacedCount + ReplacementsFrom(arr, prev) == Replacements(arr)
      invariant buffer[..write] + RewriteFrom(arr, prev) == whole
      invariant buffer[|whole|..] == zeros
      invariant FirstScopeFrom(arr, prev, maybePos)
      decreases |arr| - prev
    {
      var pos := maybePos.value;
      if pos < prev {
        // find_next never answers before `start`, which is `prev_pos`
        assert false;
        break;
      }
      write := CopyRound(buffer, write, arr, prev, pos, whole);
      replacedCount := replacedCount + 1;
      prev := pos + |ScopeSeparator|;
      start := prev;
      maybePos := NextScope(arr, start);
    }
    write := CopyTail(buffer, write, arr, prev, whole);
    assert buffer[..] == buffer[..write] + buffer[write..];
    signature := buffer[..];
  }

  // ---------------------------------------------------------------------
  // Namespace depth and the class-signature composition
  // ---------------------------------------------------------------------

  /** The number of positions from `i` on where `::` starts, overlapping
      ones included (a run `:::` holds two). */
  function PairsFrom(s: seq<char>, i: nat): nat
    requires i <= |s|
    decreases |s| - i
  {
    if i + 2 > |s| then 0 else (if ScopeAt(s, i) then 1 else 0) + PairsFrom(s, i + 1)
  }

  /** The index of the first '\0' of `s`. */
  function FirstNul(s: seq<char>): (k: nat)
    requires '\0' in s
    ensures k < |s| && s[k] == '\0'
    ensures forall j :: 0 <= j < k ==> s[j] != '\0'
  {
    if s[0] == '\0' then 0
    else
      assert '\0' in s[1..];
      1 + FirstNul(s[1..])
  }

  /** `namespace_depth` (jbridge.hpp:123-132): counts the positions before
      the first terminator where `::` starts. The scan reads the char after
      each ':', which the terminator bounds. */
  method NamespaceDepth(path: seq<char>) returns (depth: nat)
    requires '\0' in path
    ensures depth == PairsFrom(path[..FirstNul(path) + 1], 0)
  {
    ghost var k := FirstNul(path);
    ghost var text := path[..k + 1];
    depth := 0;
    var i := 0;
    while path[i] != '\0'
      invariant 0 <= i <= k
      invariant depth + PairsFrom(text, i) == PairsFrom(text, 0)
      decreases k - i
    {
      assert text[i] == path[i] && text[i + 1] == path[i + 1];
      if path[i] == ':' && path[i + 1] == ':' {
        depth := depth + 1;
      }
      i := i + 1;
    }
  }

  /** No three ':' in a row: true of every name the class macro builds from
      a namespace and an identifier. */
  predicate NoColonRun(s: seq<char>) {
    forall i :: 0 <= i && i + 2 < |s| ==> !(ScopeAt(s, i) && s[i + 2] == ':')
  }

  /** Without a `:::` run, counting overlapping separators agrees with the
      rewriting's non-overlapping count. */
  lemma {:induction false} PairsAreReplacements(s: seq<char>, i: nat)
    requires i <= |s| && NoColonRun(s)
    ensures PairsFrom(s, i) == ReplacementsFrom(s, i)
    decreases |s| - i
  {
    if i + 2 <= |s| {
      if ScopeAt(s, i) {
        PairsAreReplacements(s, i + 2);
        if i + 3 <= |s| {
          assert !ScopeAt(s, i + 1) by {
            assert !(ScopeAt(s, i) && s[i + 2] == ':');
          }
        }
      } else {
        PairsAreReplacements(s, i + 1);
      }
    }
  }

  /** With a `:::` run the two counts differ: `a:::b` has two overlapping
      separators but one replacement, so a destination sized by
      `namespace_depth` would be one char short. */
  lemma ColonRunUndersizes()
    ensures PairsFrom("a:::b\0", 0) == 2 && Replacements("a:::b\0") == 1
  {
    var s := "a:::b\0";
    assert !ScopeAt(s, 0) && ScopeAt(s, 1) && ScopeAt(s, 2) && !ScopeAt(s, 3) && !ScopeAt(s, 4);
    assert PairsFrom(s, 3) == 0;
    assert ReplacementsFrom(s, 3) == 0;
  }

  /** The `CLASS_SIGNATURE` initialiser of the class macro
      (jbridge.hpp:1983-1989): the name `package::Class` is arrayified, a
      zeroed destination of `N - namespace_depth` chars is made, and
      `replace_scope_to_slash` fills it. Exactly filled: the result is the
      rewritten name, terminated. */
  method ClassSignature(symbol: string) returns (signature: seq<char>)
    requires '\0' !in symbol && NoColonRun(symbol)
    ensures CString(signature) && Text(signature) == ScopeToSlash(symbol)
  {
    var arr := Arrayify(symbol);
    var depth := NamespaceDepth(arr);
    assert FirstNul(arr) == |symbol|;
    assert arr[..|symbol| + 1] == arr;
    assert NoColonRun(arr) by {
      forall i | 0 <= i && i + 2 < |arr| ensures !(ScopeAt(arr, i) && arr[i + 2] == ':') {
        if i + 2 < |symbol| {
          assert !(ScopeAt(symbol, i) && symbol[i + 2] == ':');
        }
      }
    }
    PairsAreReplacements(arr, 0);
    RewriteLength(arr, 0);
    ScopeToSlashAppend(symbol, '\0', 0);
    ScopeToSlashKeepsAbsent(symbol, '\0', 0);
    var buffer := new char[|arr| - depth](_ => '\0');
    ReplaceScopeToSlash(buffer, arr);
    signature := buffer[..];
    assert signature == ScopeToSlash(symbol) + ['\0'];
  }

  /** The arrays `to_fqcn` joins: `[` for an array type, `L`, the name, `;`. */
  function FqcnParts(isArray: bool, name: seq<char>): (r: seq<seq<char>>)
    requires |name| >= 1
    ensures |r| >= 1 && forall i :: 0 <= i < |r| ==> |r[i]| >= 1
  {
    var tail := [Arrayify("L"), name, Arrayify(";")];
    if isArray then [Arrayify("[")] + tail else tail
  }

  lemma ClassPartsTexts(name: seq<char>)
    requires CString(name)
    ensures AllCStrings([Arrayify("L"), name, Arrayify(";")])
    ensures Texts([Arrayify("L"), name, Arrayify(";")]) == "L" + Text(name) + ";"
  {
    var tail := [Arrayify("L"), name, Arrayify(";")];
    assert tail[1..] == [name, Arrayify(";")];
    TextsOfPair(name, Arrayify(";"));
  }

  lemma FqcnPartsTexts(isArray: bool, name: seq<char>)
    requires |name| >= 1
    ensures CString(name) ==>
              && AllCStrings(FqcnParts(isArray, name))
              && Texts(FqcnParts(isArray, name)) == (if isArray then "[L" else "L") + Text(name) + ";"
  {
    if CString(name) {
      ClassPartsTexts(name);
      var tail := [Arrayify("L"), name, Arrayify(";")];
      if isArray {
        assert FqcnParts(isArray, name)[1..] == tail;
      }
    }
  }

  /** `to_fqcn` (jbridge.hpp:203-213): `L<name>;`, preceded by `[` for an
      array type, built with `add_all`. */
  function ToFqcn(isArray: bool, name: seq<char>): (r: seq<char>)
    requires |name| >= 1
    ensures |r| >= 2
    ensures CString(name) ==>
              CString(r) && Text(r) == (if isArray then "[L" else "L") + Text(name) + ";"
  {
    FqcnPartsTexts(isArray, name);
    AddAll(FqcnParts(isArray, name))
  }
}
