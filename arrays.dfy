/** The array wrappers of jbridge.hpp: `JPrimitiveArray`, which keeps the
    elements of a Java primitive array pinned in native memory, and
    `JObjectArray`, which reads and writes a Java object array through the
    JNI. The Java arrays live in the virtual machine and are reached only
    through the JNI calls modelled at the top of this module. */
module Arrays {
  import opened Wrappers

  /** A Java array object, as the virtual machine holds it. */
  class JavaArray<T> {
    var contents: seq<T>

    constructor (contents: seq<T>)
      ensures this.contents == contents
    {
      this.contents := contents;
    }
  }

  /** A JNI reference to a Java object, as a word. */
  type Handle = bv64

  /** The most elements a Java array can have: its length is a `jint`. */
  const MaxLength := 0x7fff_ffff

  /** `static_cast<jsize>` of a 64-bit `size_t`: its low 32 bits, read as a
      two's-complement `jint`. Lengths a Java array can have are kept; any
      other length wraps around, to a negative value or to a smaller one. */
  function JSize(length: nat): (n: int)
    ensures -0x8000_0000 <= n <= MaxLength
    ensures (length - n) % 0x1_0000_0000 == 0
    ensures length <= MaxLength ==> n == length
  {
    var low := length % 0x1_0000_0000;
    assert length - low == 0x1_0000_0000 * (length / 0x1_0000_0000);
    if low < 0x8000_0000 then low else low - 0x1_0000_0000
  }

  /** Two lengths the cast does not keep: 2^32 + 5 becomes 5, and 2^31
      becomes negative. */
  lemma JSizeWraps()
    ensures JSize(0x1_0000_0005) == 5
    ensures JSize(0x8000_0000) < 0
  {
  }

  /** `NewPrimitiveArray` (jbridge.hpp:1241-1269): `New<T>Array` of the
      length cast to `jsize`. A negative `jsize` gives null (the virtual
      machine raises `NegativeArraySizeException`); otherwise a new Java
      array of that many elements. The virtual machine zeroes them; element
      values are abstract here, so the model says only how many there are. */
  method NewPrimitiveArray<T(0)>(length: nat) returns (a: JavaArray?<T>)
    ensures a == null <==> JSize(length) < 0
    ensures a != null ==> fresh(a) && |a.contents| == JSize(length)
  {
    var n := JSize(length);
    if n < 0 {
      return null;
    }
    var zeroed := new T[n];
    a := new JavaArray(zeroed[..]);
  }

  /** `GetArrayElements` (jbridge.hpp:1271-1300): pins the elements of a
      Java array. The JNI lets the virtual machine hand out a copy, and the
      model always does: a fresh native buffer holding the elements. */
  method GetArrayElements<T>(a: JavaArray<T>) returns (buffer: array<T>)
    ensures fresh(buffer) && buffer[..] == a.contents
  {
    var c := a.contents;
    buffer := new T[|c|](i requires 0 <= i < |c| => c[i]);
  }

  /** `ReleaseArrayRegion` (jbridge.hpp:1302-1330), which releases with
      mode 0: the buffer is copied back into the Java array and freed. */
  method ReleaseArrayRegion<T>(a: JavaArray<T>, buffer: array<T>)
    requires buffer.Length == |a.contents|
    modifies a
    ensures a.contents == buffer[..]
  {
    a.contents := buffer[..];
  }

  /** The element-by-element copy loop of both copy operations
      (jbridge.hpp:1731-1733, 1752-1754): the first `dst.Length` elements
      of `src` into `dst`. */
  method CopyElements<T>(dst: array<T>, src: array<T>)
    requires dst.Length <= src.Length
    modifies dst
    ensures dst[..] == old(src[..dst.Length])
  {
    ghost var from := src[..dst.Length];
    if dst == src {
      return;
    }
    var i := 0;
    while i < dst.Length
      invariant i <= dst.Length
      invariant dst[..i] == from[..i]
      invariant src[..dst.Length] == from
    {
      dst[i] := src[i];
      i := i + 1;
    }
  }

  /** `JPrimitiveArray<JArrayType, ElementType>` (jbridge.hpp:1703-1858):
      the Java array `javaArray`, the pinned buffer `elements` (null once it has
      been released or moved away) and the element count `size`. */
  class JPrimitiveArray<T(0)> {
    var javaArray: JavaArray<T>
    var elements: array?<T>
    var size: nat

    /** What holds of every wrapper, released ones included: the pinned
        buffer has one slot per element of the Java array. */
    predicate Valid()
      reads this, javaArray
    {
      && size <= |javaArray.contents| <= MaxLength
      && (elements != null ==> elements.Length == size == |javaArray.contents|)
    }

    /** A wrapper that can be read and written: it still has its buffer,
        or it was moved from and holds no element. */
    predicate Live()
      reads this, javaArray
    {
      Valid() && (elements == null ==> size == 0)
    }

    /** The elements as the wrapper sees them. */
    function Contents(): seq<T>
      reads this, elements
    {
      if elements == null then [] else elements[..]
    }

    /** The capacity constructor (jbridge.hpp:1709-1714): a new Java array
        of `capacity` elements, cast to `jsize`, pinned. A capacity that
        does not fit a `jint` wraps around (`JSizeWraps`); one that wraps to
        a negative value leaves no array to pin. */
    constructor WithCapacity(capacity: nat)
      requires JSize(capacity) >= 0
      ensures Live() && fresh(javaArray) && fresh(elements)
      ensures size == JSize(capacity) && elements != null && Contents() == javaArray.contents
      ensures capacity <= MaxLength ==> size == capacity
    {
      var a := NewPrimitiveArray<T>(capacity);
      var buffer := GetArrayElements(a);
      javaArray := a;
      elements := buffer;
      size := |a.contents|;
    }

    /** The wrapping constructor (jbridge.hpp:1716-1723): pins an existing
        Java array; the wrapper sees its elements. */
    constructor Wrap(a: JavaArray<T>)
      requires |a.contents| <= MaxLength
      ensures Live() && javaArray == a && fresh(elements)
      ensures size == |a.contents| && Contents() == a.contents
    {
      var buffer := GetArrayElements(a);
      javaArray := a;
      elements := buffer;
      size := |a.contents|;
    }

    /** The copy constructor as written (jbridge.hpp:1725-1737): a new Java
        javaArray whose buffer is filled from a second pin of `o`'s Java array,
        which is then released unchanged. The copy holds what `o`'s Java
        javaArray holds, not what `o` sees: a `Set` on `o` that has not been
        released yet is not copied. */
    constructor CopyAsWritten(o: JPrimitiveArray<T>)
      requires o.Live()
      modifies o.javaArray
      ensures Live() && fresh(javaArray) && fresh(elements)
      ensures size == old(o.size) && Contents() == old(o.javaArray.contents[..o.size])
      ensures o.javaArray.contents == old(o.javaArray.contents)
    {
      var a := NewPrimitiveArray<T>(o.size);
      var buffer := GetArrayElements(a);
      var other := GetArrayElements(o.javaArray);
      CopyElements(buffer, other);
      ReleaseArrayRegion(o.javaArray, other);
      javaArray := a;
      elements := buffer;
      size := o.size;
    }

    /** The copy constructor with the copy taken from what `o` sees: a new,
        independent Java array whose wrapper holds `o`'s elements. */
    constructor Copy(o: JPrimitiveArray<T>)
      requires o.Live()
      ensures Live() && fresh(javaArray) && fresh(elements)
      ensures size == o.size && Contents() == o.Contents()
    {
      var a := NewPrimitiveArray<T>(o.size);
      var buffer := GetArrayElements(a);
      var source := o.elements;
      if source != null {
        CopyElements(buffer, source);
      }
      javaArray := a;
      elements := buffer;
      size := o.size;
    }

    /** The move constructor (jbridge.hpp:1761-1768): takes over `o`'s Java
        javaArray and buffer, and leaves `o` empty, with no buffer. */
    constructor Move(o: JPrimitiveArray<T>)
      requires o.Valid()
      modifies o
      ensures Valid() && javaArray == old(o.javaArray) && elements == old(o.elements)
      ensures size == old(o.size) && Contents() == old(o.Contents())
      ensures o.size == 0 && o.elements == null && o.javaArray == old(o.javaArray) && o.Live()
    {
      javaArray := o.javaArray;
      elements := o.elements;
      size := o.size;
      new;
      o.elements := null;
      o.size := 0;
    }

    /** The move assignment (jbridge.hpp:1770-1787): unless `o` is this very
        wrapper, releases this wrapper's buffer into its Java array, then
        takes over `o`'s Java array and buffer and leaves `o` empty. */
    method MoveAssign(o: JPrimitiveArray<T>)
      requires Valid() && o.Valid()
      modifies this, javaArray, o
      ensures o == this ==> unchanged(this) && unchanged(old(javaArray))
      ensures o != this ==> && javaArray == old(o.javaArray) && elements == old(o.elements)
                            && size == old(o.size) && Contents() == old(o.Contents())
                            && o.size == 0 && o.elements == null && o.javaArray == old(o.javaArray)
      ensures o != this && old(elements) != null ==> old(javaArray).contents == old(elements[..])
      ensures o != this && old(elements) == null ==> unchanged(old(javaArray))
    {
      if o == this {
        return;
      }
      Release();
      javaArray := o.javaArray;
      elements := o.elements;
      size := o.size;
      o.elements := null;
      o.size := 0;
    }

    /** `Release` (jbridge.hpp:1846-1851), which the destructor runs
        (jbridge.hpp:1789-1791): a held buffer is written back to the Java
        javaArray and dropped. A second release does nothing, so releasing is
        idempotent. */
    method Release()
      requires Valid()
      modifies this, javaArray
      ensures Valid() && elements == null
      ensures javaArray == old(javaArray) && size == old(size)
      ensures old(elements) != null ==> javaArray.contents == old(elements[..])
      ensures old(elements) == null ==> unchanged(this) && unchanged(javaArray)
    {
      if elements != null {
        ReleaseArrayRegion(javaArray, elements);
        elements := null;
      }
    }

    /** `Get` (jbridge.hpp:1801-1817): the element at `index`, or
        `std::out_of_range` exactly when `index` is not below the size. */
    method Get(index: nat) returns (r: Result<T>)
      requires Live()
      ensures r.Err? <==> index >= size
      ensures r.Ok? ==> index < |Contents()| && r.value == Contents()[index]
    {
      if index >= size {
        return Err(OutOfRange);
      }
      return Ok(elements[index]);
    }

    /** `Set` (jbridge.hpp:1819-1825): stores `element` at `index`, or
        throws exactly when `index` is not below the size; no other element
        and not the size changes. */
    method Set(index: nat, element: T) returns (r: Outcome)
      requires Live()
      modifies elements
      ensures Live()
      ensures r.Fail? <==> index >= size
      ensures Contents() == if index < size then old(Contents())[index := element] else old(Contents())
    {
      if index >= size {
        return Fail(OutOfRange);
      }
      elements[index] := element;
      return Pass;
    }

    /** `Size` (jbridge.hpp:1827-1830): the number of elements the wrapper
        sees. */
    function Size(): (n: nat)
      requires Live()
      reads this, javaArray, elements
      ensures n == |Contents()|
    {
      size
    }
  }

  /** A `Set` that has not been released yet is missing from a copy made
      by the copy constructor as written, and present in the corrected
      copy. */
  method CopyMissesPendingSet() returns (asWritten: seq<int>, corrected: seq<int>, seen: seq<int>)
    ensures asWritten == [0] && corrected == [7] && seen == [7]
  {
    var a := new JavaArray([0]);
    var wrapper := new JPrimitiveArray.Wrap(a);
    var outcome := wrapper.Set(0, 7);
    seen := wrapper.Contents();
    var copy := new JPrimitiveArray.Copy(wrapper);
    corrected := copy.Contents();
    var stale := new JPrimitiveArray.CopyAsWritten(wrapper);
    asWritten := stale.Contents();
  }

  /** `JObjectArray<MirrorClass>` (jbridge.hpp:1863-1950): a Java object
      javaArray, its element count and the class handle of its elements. Every
      operation goes straight to the Java array. */
  class JObjectArray {
    var javaArray: JavaArray<Handle>
    var size: nat
    var elementClass: Handle

    predicate Valid()
      reads this, javaArray
    {
      size <= |javaArray.contents|
    }

    /** The wrapping constructor (jbridge.hpp:1877-1882): the size is the
        Java array's length; the class handle is what `FindClass` returned
        for the mirror's signature. */
    constructor Wrap(a: JavaArray<Handle>, foundClass: Handle)
      ensures Valid() && javaArray == a && size == |a.contents| && elementClass == foundClass
    {
      javaArray := a;
      size := |a.contents|;
      elementClass := foundClass;
    }

    /** The copy constructor (jbridge.hpp:1884-1888): the copy shares `o`'s
        Java array. */
    constructor Copy(o: JObjectArray)
      requires o.Valid()
      ensures Valid() && javaArray == o.javaArray && size == o.size && elementClass == o.elementClass
    {
      javaArray := o.javaArray;
      size := o.size;
      elementClass := o.elementClass;
    }

    /** The copy assignment (jbridge.hpp:1890-1901): this wrapper comes to
        share `o`'s Java array. */
    method CopyAssign(o: JObjectArray)
      requires o.Valid()
      modifies this
      ensures Valid() && javaArray == o.javaArray && size == o.size && elementClass == o.elementClass
    {
      if o == this {
        return;
      }
      javaArray := o.javaArray;
      size := o.size;
      elementClass := o.elementClass;
    }

    /** `GetAsRaw` (jbridge.hpp:1915-1922): the reference at `index` of the
        Java array, or `std::out_of_range` exactly when `index` is not below
        the size. */
    method GetAsRaw(index: nat) returns (r: Result<Handle>)
      requires Valid()
      ensures r.Err? <==> index >= size
      ensures r.Ok? ==> r.value == javaArray.contents[index]
    {
      if index >= size {
        return Err(OutOfRange);
      }
      return Ok(javaArray.contents[index]);
    }

    /** `Set` (jbridge.hpp:1924-1931): stores `element` at `index` of the
        Java array, or throws exactly when `index` is not below the size. */
    method Set(index: nat, element: Handle) returns (r: Outcome)
      requires Valid()
      modifies javaArray
      ensures Valid()
      ensures r.Fail? <==> index >= size
      ensures javaArray.contents == if index < size then old(javaArray.contents)[index := element] else old(javaArray.contents)
    {
      if index >= size {
        return Fail(OutOfRange);
      }
      javaArray.contents := javaArray.contents[index := element];
      return Pass;
    }

    /** `Size` (jbridge.hpp:1933-1936): the element count, at most the
        length of the Java array. */
    function Size(): (n: nat)
      requires Valid()
      reads this, javaArray
      ensures n <= |javaArray.contents|
    {
      size
    }
  }

  /** A copy of an object array shares the Java array: a `Set` through the
      copy is seen through the original. */
  method CopySharesElements(o: JObjectArray, index: nat, element: Handle) returns (r: Result<Handle>)
    requires o.Valid() && index < o.size
    modifies o.javaArray
    ensures r == Ok(element)
  {
    var copy := new JObjectArray.Copy(o);
    var outcome := copy.Set(index, element);
    r := o.GetAsRaw(index);
  }

  /** A primitive-array copy is independent: a `Set` on the copy leaves the
      original as it was. */
  method CopyIsIndependent<T(0)>(o: JPrimitiveArray<T>, index: nat, element: T) returns (before: seq<T>, after: seq<T>)
    requires o.Live()
    ensures before == after == o.Contents()
  {
    before := o.Contents();
    var copy := new JPrimitiveArray.Copy(o);
    var outcome := copy.Set(index, element);
    after := o.Contents();
  }
}
