/** The `traits` namespace of jbridge.hpp: the C++ types a bridged member
    may take or return, and the JVM descriptor each one is given. */
module Traits {
  import opened Str
  import opened Detail

  /** The C++ scalar types the descriptor table knows. `bool`/`jboolean`
      and `char`/`jchar` are distinct C++ types with the same descriptor. */
  datatype Primitive = Bool | JBoolean | JByte | Char | JChar | JShort | JInt | JLong | JFloat | JDouble

  /** A C++ type as the descriptor table sees it:
      - `Void`: `void`;
      - `Scalar(p)`: one of the scalars above;
      - `PrimArray(p)`: a JNI array handle (`jintArray`, …) or a C++ array
        (`int[]`, …) of such scalars;
      - `JavaString`: a string literal (`const char (&)[N]`, `const char[N]`)
        or a `jstring`;
      - `Mirror(classSignature, isArray)`: a class declared with the class
        macro, whose `CLASS_SIGNATURE` is `classSignature`, or an array of
        it (`Mirror[]`). */
  datatype HostType =
    | Void
    | Scalar(p: Primitive)
    | PrimArray(elem: Primitive)
    | JavaString
    | Mirror(classSignature: seq<char>, isArray: bool)

  /** A mirror's `CLASS_SIGNATURE` is a `std::array<char, N>`, never empty. */
  predicate Declared(t: HostType) {
    t.Mirror? ==> |t.classSignature| >= 1
  }

  /** A mirror's `CLASS_SIGNATURE` holds one terminated string. */
  predicate Terminated(t: HostType) {
    t.Mirror? ==> CString(t.classSignature)
  }

  /** The one-letter code of a scalar (jbridge.hpp:245-287). */
  function Code(p: Primitive): char {
    match p
    case Bool | JBoolean => 'Z'
    case JByte => 'B'
    case Char | JChar => 'C'
    case JShort => 'S'
    case JInt => 'I'
    case JLong => 'J'
    case JFloat => 'F'
    case JDouble => 'D'
  }

  /** The `signature<Type>::SIGNATURE` table (jbridge.hpp:245-381); it has
      no entry for mirror classes. */
  function Signature(t: HostType): (r: seq<char>)
    requires !t.Mirror?
    ensures CString(r) && |r| >= 2
  {
    match t
    case Void => Arrayify("V")
    case Scalar(p) => Arrayify([Code(p)])
    case PrimArray(p) => Arrayify(['[', Code(p)])
    case JavaString => Arrayify("Ljava/lang/String;")
  }

  /** `fqcnify<Type>()` (jbridge.hpp:955-962): a mirror class, or an array
      of one, is wrapped by `to_fqcn`; every other type is looked up in the
      table. */
  function Fqcnify(t: HostType): (r: seq<char>)
    requires Declared(t)
    ensures |r| >= 2
    ensures Terminated(t) ==> CString(r)
  {
    match t
    case Mirror(signature, isArray) => ToFqcn(isArray, signature)
    case _ => Signature(t)
  }

  /** Each primitive-array type is its element's descriptor behind a single `[`. */
  lemma PrimArrayIsBracketed(p: Primitive)
    ensures Text(Fqcnify(PrimArray(p))) == "[" + Text(Fqcnify(Scalar(p)))
  {
    assert Text(Arrayify(['[', Code(p)])) == ['[', Code(p)];
    assert Text(Arrayify([Code(p)])) == [Code(p)];
  }
}
