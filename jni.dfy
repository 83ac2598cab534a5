/** The tagged references of jbridge.hpp's `jni` namespace: a JNI reference
    stored in a C++ object is kept with the tag bits `kJniTag` set, so that
    the word can later be told apart from other data in the object. Words
    are `uintptr_t`, 64 bits wide. */
module Jni {

  /** `kJniTag` (jbridge.hpp:1365). */
  const JniTag: bv64 := 0xECD8000000000000

  /** `IsEncoded` (jbridge.hpp:1367-1369): all the tag bits are set. The
      encoded words are exactly those that setting the tag bits leaves as
      they are, and the null word is not one of them. */
  predicate IsEncoded(w: bv64): (b: bool)
    ensures b <==> w | JniTag == w
    ensures b ==> w != 0
  {
    w & JniTag == JniTag
  }

  /** `Encode` (jbridge.hpp:1371-1374): sets the tag bits. The result is
      always encoded, and an encoded word is left as it is. */
  function Encode(h: bv64): (w: bv64)
    ensures IsEncoded(w)
    ensures IsEncoded(h) ==> w == h
  {
    h | JniTag
  }

  /** `Decode` (jbridge.hpp:1376-1379): clears the tag bits, and only them. */
  function Decode(w: bv64): (h: bv64)
    ensures h & JniTag == 0
    ensures h | JniTag == w | JniTag
  {
    w & !JniTag
  }

  /** Decoding undoes encoding exactly for words with no tag bit set; the
      tag bits of any other word are lost. */
  lemma DecodeEncode(h: bv64)
    ensures Decode(Encode(h)) == h <==> h & JniTag == 0
  {
  }

  /** Encoding undoes decoding exactly for encoded words. */
  lemma EncodeDecode(w: bv64)
    ensures Encode(Decode(w)) == w <==> IsEncoded(w)
  {
  }

  /** The null reference is not encoded, and its encoding decodes to null. */
  lemma NullIsPlain()
    ensures !IsEncoded(0) && Decode(0) == 0 && Decode(Encode(0)) == 0
  {
  }

  /** `JniObject<Tp>` (jbridge.hpp:1381-1416): one stored word, which holds
      an encoded reference once anything has been put in it. `Tp` is a
      pointer type, so a value of it is a 64-bit word here. */
  class JniObject {
    var reference: bv64

    /** The default constructor stores 0, which reads back as null. */
    constructor Default()
      ensures reference == 0
      ensures Get() == 0
    {
      reference := 0;
    }

    /** Construction from a pointer stores it encoded. */
    constructor FromPointer(ptr: bv64)
      ensures reference == Encode(ptr)
      ensures Get() == Decode(ptr)
    {
      reference := Encode(ptr);
    }

    /** The copy constructor: the copy reads back the same pointer, and its
        word is encoded even when the source's was not (the default 0). */
    constructor Copy(o: JniObject)
      ensures reference == if IsEncoded(o.reference) then o.reference else Encode(o.reference)
      ensures IsEncoded(reference) && Get() == o.Get()
    {
      reference := if IsEncoded(o.reference) then o.reference else Encode(o.reference);
    }

    /** Copy assignment: a self-assignment changes nothing; otherwise as the
        copy constructor. */
    method Assign(o: JniObject)
      modifies this
      ensures o == this ==> reference == old(reference)
      ensures o != this ==> reference == if IsEncoded(old(o.reference)) then old(o.reference)
                                         else Encode(old(o.reference))
      ensures o != this ==> IsEncoded(reference)
      ensures Get() == old(o.Get())
    {
      if o == this {
        return;
      }
      if IsEncoded(o.reference) {
        reference := o.reference;
      } else {
        reference := Encode(o.reference);
      }
    }

    /** `Get` (jbridge.hpp:1405-1407): the stored pointer, tag bits cleared. */
    function Get(): (p: bv64)
      reads this
      ensures p & JniTag == 0
      ensures p | JniTag == reference | JniTag
    {
      Decode(reference)
    }

    /** `Set` (jbridge.hpp:1409-1411): stores the pointer encoded; `Get`
        then yields it with the tag bits cleared. */
    method Set(ptr: bv64)
      modifies this
      ensures reference == Encode(ptr)
      ensures Get() == Decode(ptr)
    {
      reference := Encode(ptr);
    }
  }
}
