/** `JniRef<Tp>` of jbridge.hpp (jbridge.hpp:1419-1455): before an object
    that holds `JniObject` fields is kept past the current JNI call, every
    encoded word in it is promoted to a global reference; `Demote` deletes
    those global references again. An object is its `sizeof(Tp)` bytes,
    read as pointer-sized words. */
module JniRef {
  import opened Jni

  /** The JNI environment, as far as global references go: the multiset of
      live global references it has handed out. `NewGlobalRef` and
      `DeleteGlobalRef` are JNI functions; their bodies here are stand-ins
      that meet their contracts. */
  class Env {
    ghost var globals: multiset<bv64>

    constructor ()
      ensures globals == multiset{}
    {
      globals := multiset{};
    }

    /** `NewGlobalRef`: null for null. Otherwise a new live global
        reference, or null when the virtual machine is out of memory, in
        which case nothing becomes live. A reference is an address in user
        space, whose tag bits are clear. */
    method NewGlobalRef(obj: bv64) returns (g: bv64)
      requires obj & JniTag == 0
      modifies this
      ensures obj == 0 ==> g == 0
      ensures g == 0 ==> globals == old(globals)
      ensures g != 0 ==> globals == old(globals) + multiset{g}
      ensures g & JniTag == 0
    {
      g := obj;
      if obj != 0 {
        globals := globals + multiset{g};
      }
    }

    /** `DeleteGlobalRef`: ends a live global reference; null is ignored. */
    method DeleteGlobalRef(g: bv64)
      requires g == 0 || g in globals
      modifies this
      ensures globals == if g == 0 then old(globals) else old(globals) - multiset{g}
    {
      if g != 0 {
        globals := globals - multiset{g};
      }
    }
  }

  /** The global reference an encoded, non-null word holds. */
  function HeldRef(w: bv64): multiset<bv64> {
    if IsEncoded(w) && Decode(w) != 0 then multiset{Decode(w)} else multiset{}
  }

  /** The references the encoded, non-null words of `words` hold. */
  function HeldRefs(words: seq<bv64>): multiset<bv64>
  {
    if words == [] then multiset{} else HeldRefs(words[..|words| - 1]) + HeldRef(words[|words| - 1])
  }

  lemma {:induction false} HeldRefsStep(words: seq<bv64>, k: nat)
    requires k < |words|
    ensures HeldRefs(words[..k + 1]) == HeldRefs(words[..k]) + HeldRef(words[k])
  {
    assert words[..k + 1][..k] == words[..k];
  }

  /** Only the whole words of the object are scanned: byte offsets
      0, 8, … with `off + 8 <= sizeof(Tp)`. */
  function ScannedWords(fieldSize: nat): nat {
    fieldSize / 8
  }

  /** The byte offset `8 * scanned` of a scan: the word there is scanned
      exactly when it fits in the object, and the scan stops after the
      last whole word. */
  lemma ScanOffset(fieldSize: nat, scanned: nat)
    ensures (8 * scanned) / 8 == scanned
    ensures 8 * scanned + 8 <= fieldSize ==> scanned < ScannedWords(fieldSize)
    ensures 8 * scanned <= fieldSize < 8 * scanned + 8 ==> scanned == ScannedWords(fieldSize)
  {
  }

  /** The callback of `Promote` (jbridge.hpp:1441-1445) on the word at
      index `k`: an encoded word `w` becomes `Encode(NewGlobalRef(Decode(w)))`. */
  method PromoteWord(env: Env, mem: array<bv64>, k: nat)
    requires k < mem.Length
    modifies env, mem
    ensures mem[..] == old(mem[..])[k := mem[k]]
    ensures WordPromoted(old(mem[k]), mem[k])
    ensures env.globals == old(env.globals) + HeldRef(mem[k])
  {
    var value := mem[k];
    if IsEncoded(value) {
      var g := env.NewGlobalRef(Decode(value));
      DecodeEncode(g);
      mem[k] := Encode(g);
    }
  }

  /** The callback of `Demote` (jbridge.hpp:1449-1453) on the word at index
      `k`: the reference an encoded word holds is deleted. */
  method DemoteWord(env: Env, mem: array<bv64>, k: nat)
    requires k < mem.Length
    requires HeldRef(mem[k]) <= env.globals
    modifies env
    ensures env.globals == old(env.globals) - HeldRef(mem[k])
  {
    var value := mem[k];
    if IsEncoded(value) {
      env.DeleteGlobalRef(Decode(value));
    }
  }

  /** How `Promote` leaves one scanned word: an encoded word stays encoded,
      and one that held null still holds null (one that held a reference
      holds null afterwards when `NewGlobalRef` failed); any other word is
      left as it was. */
  predicate WordPromoted(before: bv64, after: bv64) {
    if IsEncoded(before) then IsEncoded(after) && (Decode(before) == 0 ==> Decode(after) == 0)
    else after == before
  }

  /** How `Promote` has left the words `now` of an object that held `orig`,
      once it has scanned the first `scanned` of them. */
  ghost predicate PromotedUpTo(orig: seq<bv64>, now: seq<bv64>, scanned: nat)
    requires |orig| == |now|
  {
    forall i :: 0 <= i < |now| ==> if i < scanned then WordPromoted(orig[i], now[i]) else now[i] == orig[i]
  }

  lemma PromotedStep(orig: seq<bv64>, pre: seq<bv64>, now: seq<bv64>, k: nat)
    requires |orig| == |pre| == |now| && k < |now|
    requires PromotedUpTo(orig, pre, k)
    requires now == pre[k := now[k]] && WordPromoted(pre[k], now[k])
    ensures PromotedUpTo(orig, now, k + 1)
  {
    assert pre[k] == orig[k];
  }

  /** One turn of `Promote`'s scan: the word at index `k` is handed to the
      callback when it is encoded. */
  method PromoteScanStep(env: Env, mem: array<bv64>, k: nat, ghost orig: seq<bv64>, ghost origGlobals: multiset<bv64>)
    requires k < mem.Length == |orig|
    requires PromotedUpTo(orig, mem[..], k)
    requires env.globals == origGlobals + HeldRefs(mem[..k])
    modifies env, mem
    ensures PromotedUpTo(orig, mem[..], k + 1)
    ensures env.globals == origGlobals + HeldRefs(mem[..k + 1])
  {
    ghost var pre := mem[..];
    if IsEncoded(mem[k]) {
      PromoteWord(env, mem, k);
    } else {
      assert pre[k := pre[k]] == pre;
    }
    ghost var now := mem[..];
    PromotedStep(orig, pre, now, k);
    assert now[..k] == pre[..k];
    HeldRefsStep(now, k);
  }

  /** `Promote` (jbridge.hpp:1440-1446, with the scan of 1427-1436): the
      callback runs on each encoded whole word of the object. Words that are
      not encoded, and words past the object's last whole word, are left as
      they were; encoded words stay encoded, null ones stay null; and the
      new global references are exactly those the object now holds. */
  method Promote(env: Env, mem: array<bv64>, fieldSize: nat)
    requires ScannedWords(fieldSize) <= mem.Length
    modifies env, mem
    ensures forall i :: 0 <= i < mem.Length ==>
              if i < ScannedWords(fieldSize) then WordPromoted(old(mem[i]), mem[i]) else mem[i] == old(mem[i])
    ensures env.globals == old(env.globals) + HeldRefs(mem[..ScannedWords(fieldSize)])
  {
    ghost var orig := mem[..];
    var off: nat := 0;
    ghost var scanned: nat := 0;
    while off + 8 <= fieldSize
      invariant off == 8 * scanned && scanned <= ScannedWords(fieldSize)
      invariant PromotedUpTo(orig, mem[..], scanned)
      invariant env.globals == old(env.globals) + HeldRefs(mem[..scanned])
      decreases fieldSize - off
    {
      ScanOffset(fieldSize, scanned);
      var k := off / 8;
      PromoteScanStep(env, mem, k, orig, old(env.globals));
      off := off + 8;
      scanned := scanned + 1;
    }
    ScanOffset(fieldSize, scanned);
  }

  /** One turn of `Demote`'s scan: the word at index `k` is handed to the
      callback when it is encoded. */
  method DemoteScanStep(env: Env, mem: array<bv64>, k: nat, ghost total: nat, ghost origGlobals: multiset<bv64>)
    requires k < total <= mem.Length
    requires HeldRefs(mem[..total]) <= origGlobals
    requires env.globals == origGlobals - HeldRefs(mem[..k])
    modifies env
    ensures env.globals == origGlobals - HeldRefs(mem[..k + 1])
  {
    DemoteStepRefs(mem[..], k, total, origGlobals);
    if IsEncoded(mem[k]) {
      DemoteWord(env, mem, k);
    } else {
      assert HeldRef(mem[k]) == multiset{};
    }
  }

  /** The bookkeeping of one turn of `Demote`: the reference at `k` is still
      live, and deleting it leaves the references of the first `k + 1` words
      deleted. */
  lemma DemoteStepRefs(words: seq<bv64>, k: nat, total: nat, g: multiset<bv64>)
    requires k < total <= |words|
    requires HeldRefs(words[..total]) <= g
    ensures HeldRef(words[k]) <= g - HeldRefs(words[..k])
    ensures g - HeldRefs(words[..k + 1]) == (g - HeldRefs(words[..k])) - HeldRef(words[k])
  {
    var done := HeldRefs(words[..k]);
    var held := HeldRef(words[k]);
    assert HeldRefs(words[..k + 1]) == done + held <= g by {
      HeldRefsStep(words, k);
      HeldRefsPrefix(words, k + 1, total);
    }
    RemoveInTurn(g, done, held);
  }

  /** `Demote` (jbridge.hpp:1448-1454, with the scan of 1427-1436): the
      callback runs on each encoded whole word. It writes nothing to the
      object (it modifies only the environment), and the references it
      deletes are those the object holds, which must be live. */
  method Demote(env: Env, mem: array<bv64>, fieldSize: nat)
    requires ScannedWords(fieldSize) <= mem.Length
    requires HeldRefs(mem[..ScannedWords(fieldSize)]) <= env.globals
    modifies env
    ensures env.globals == old(env.globals) - HeldRefs(mem[..ScannedWords(fieldSize)])
  {
    var off: nat := 0;
    ghost var scanned: nat := 0;
    while off + 8 <= fieldSize
      invariant off == 8 * scanned && scanned <= ScannedWords(fieldSize)
      invariant env.globals == old(env.globals) - HeldRefs(mem[..scanned])
      decreases fieldSize - off
    {
      ScanOffset(fieldSize, scanned);
      var k := off / 8;
      DemoteScanStep(env, mem, k, ScannedWords(fieldSize), old(env.globals));
      off := off + 8;
      scanned := scanned + 1;
    }
    ScanOffset(fieldSize, scanned);
  }

  /** Removing `a` and then `h` from `g` removes `a + h`, and `h` is still
      there to remove once `a` is gone. */
  lemma RemoveInTurn(g: multiset<bv64>, a: multiset<bv64>, h: multiset<bv64>)
    requires a + h <= g
    ensures h <= g - a
    ensures g - (a + h) == (g - a) - h
  {
    forall x ensures (g - (a + h))[x] == ((g - a) - h)[x] {
      assert (a + h)[x] == a[x] + h[x] <= g[x];
    }
  }

  /** The references a prefix holds are among those of a longer prefix. */
  lemma {:induction false} HeldRefsPrefix(words: seq<bv64>, j: nat, n: nat)
    requires j <= n <= |words|
    ensures HeldRefs(words[..j]) <= HeldRefs(words[..n])
    decreases n - j
  {
    if j < n {
      HeldRefsStep(words, j);
      HeldRefsPrefix(words, j + 1, n);
    }
  }

  /** Promoting and then demoting an object deletes exactly the global
      references the promotion created: the live set is as before. */
  method PromoteThenDemote(env: Env, mem: array<bv64>, fieldSize: nat)
    requires ScannedWords(fieldSize) <= mem.Length
    modifies env, mem
    ensures env.globals == old(env.globals)
  {
    Promote(env, mem, fieldSize);
    Demote(env, mem, fieldSize);
  }
}
