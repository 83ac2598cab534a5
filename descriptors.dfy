/** The bridge's descriptors against the grammar of The Java Virtual Machine
    Specification: every type the descriptor table and the class macro
    describe gets the JVM descriptor of the Java type JNI maps it to, and
    every method descriptor the tokenizer builds parses back to the
    parameter and return types it was built from. */
module Descriptors {
  import opened Wrappers
  import opened Str
  import opened Traits
  import opened Tokenizer
  import Jvms
  import Detail

  /** The Java base type JNI maps each C++ scalar to. */
  function BaseTypeOf(p: Primitive): Jvms.BaseType {
    match p
    case Bool | JBoolean => Jvms.Boolean
    case JByte => Jvms.Byte
    case Char | JChar => Jvms.Char
    case JShort => Jvms.Short
    case JInt => Jvms.Int
    case JLong => Jvms.Long
    case JFloat => Jvms.Float
    case JDouble => Jvms.Double
  }

  /** The Java type a non-void C++ type stands for. */
  function FieldTypeOf(t: HostType): Jvms.FieldType
    requires t != Void && Declared(t)
  {
    match t
    case Scalar(p) => Jvms.Base(BaseTypeOf(p))
    case PrimArray(p) => Jvms.Array(Jvms.Base(BaseTypeOf(p)))
    case JavaString => Jvms.Object("java/lang/String")
    case Mirror(signature, isArray) =>
      var element := Jvms.Object(Text(signature));
      if isArray then Jvms.Array(element) else element
  }

  /** The Java return type a C++ return type stands for. */
  function ReturnOf(t: HostType): Jvms.ReturnDescriptor
    requires Declared(t)
  {
    if t == Void then Jvms.VoidDescriptor else Jvms.Returns(FieldTypeOf(t))
  }

  /** No parameter is `void`. */
  predicate NoVoid(types: seq<HostType>) {
    forall i :: 0 <= i < |types| ==> types[i] != Void
  }

  function FieldTypesOf(types: seq<HostType>): (r: seq<Jvms.FieldType>)
    requires AllDeclared(types) && NoVoid(types)
    ensures |r| == |types|
    ensures forall i :: 0 <= i < |types| ==> r[i] == FieldTypeOf(types[i])
  {
    seq(|types|, i requires 0 <= i < |types| => FieldTypeOf(types[i]))
  }

  /** A mirror's `CLASS_SIGNATURE` names a class in internal form. */
  predicate NamesClass(t: HostType) {
    t.Mirror? ==> CString(t.classSignature) && Jvms.ValidClassName(Text(t.classSignature))
  }

  lemma StringClassIsValid()
    ensures Jvms.ValidClassName("java/lang/String")
  {
    var n := "java/lang/String";
    forall i | 0 <= i < |n| - 1 ensures !(n[i] == '/' && n[i + 1] == '/') {
      assert i == 4 || i == 9 ==> n[i + 1] != '/';
    }
  }

  /** `fqcnify` gives each type the JVM descriptor of its Java type: the
      table's letters are the base-type letters of section 4.3.2, arrays
      take one `[`, strings are `java/lang/String`, mirrors are `L…;`. */
  lemma FqcnifyIsDescriptor(t: HostType)
    requires Declared(t) && Terminated(t)
    ensures Text(Fqcnify(t)) == Jvms.ReturnText(ReturnOf(t))
  {
    if t.Mirror? {
      MirrorIsDescriptor(t.classSignature, t.isArray);
    } else {
      TableIsDescriptor(t);
    }
  }

  /** The table's letter for each scalar is the base-type letter, in the
      sense of section 4.3.2, of the Java type JNI maps it to. */
  lemma CodeIsBaseChar(p: Primitive)
    ensures Code(p) == Jvms.BaseChar(BaseTypeOf(p))
  {
  }

  lemma TableIsDescriptor(t: HostType)
    requires !t.Mirror?
    ensures Text(Signature(t)) == Jvms.ReturnText(ReturnOf(t))
  {
    var text := Text(Signature(t));
    match t
    case Void =>
      assert text == "V";
    case Scalar(p) =>
      CodeIsBaseChar(p);
      assert text == [Code(p)];
    case PrimArray(p) =>
      CodeIsBaseChar(p);
      assert text == ['[', Code(p)];
    case JavaString =>
      assert text == "Ljava/lang/String;";
      assert "L" + "java/lang/String" + ";" == "Ljava/lang/String;";
  }

  lemma MirrorIsDescriptor(signature: seq<char>, isArray: bool)
    requires CString(signature)
    ensures Text(Detail.ToFqcn(isArray, signature)) == Jvms.ReturnText(ReturnOf(Mirror(signature, isArray)))
  {
    var n := Text(signature);
    assert Jvms.Descriptor(Jvms.Object(n)) == "L" + n + ";";
    if isArray {
      assert "[L" + n + ";" == "[" + ("L" + n + ";");
    }
  }

  /** So each non-void type's descriptor is one the JVM parses back to that
      type, with nothing left over. */
  lemma FqcnifyParses(t: HostType)
    requires t != Void && Declared(t) && NamesClass(t)
    ensures Jvms.ParseField(Text(Fqcnify(t))) == Some((FieldTypeOf(t), []))
  {
    FqcnifyIsDescriptor(t);
    StringClassIsValid();
    Jvms.ParseFieldExactly(Text(Fqcnify(t)), FieldTypeOf(t));
  }

  lemma {:induction false} DescriptorTextsAreParameterText(types: seq<HostType>)
    requires AllDeclared(types) && AllTerminated(types) && NoVoid(types)
    ensures DescriptorTexts(types) == Jvms.ParameterText(FieldTypesOf(types))
  {
    if types != [] {
      var rest := types[1..];
      assert AllDeclared(rest) && AllTerminated(rest) && NoVoid(rest) by {
        forall i | 0 <= i < |rest| ensures rest[i] == types[i + 1] { }
      }
      var head := Text(Fqcnify(types[0]));
      assert head == Jvms.Descriptor(FieldTypesOf(types)[0]) by {
        FqcnifyIsDescriptor(types[0]);
      }
      assert DescriptorTexts(rest) == Jvms.ParameterText(FieldTypesOf(types)[1..]) by {
        DescriptorTextsAreParameterText(rest);
        assert FieldTypesOf(types)[1..] == FieldTypesOf(rest);
      }
    }
  }

  /** `build_function_signature<R, Ps...>` is the method descriptor, in the
      sense of section 4.3.3, of the Java method taking the Java types of
      `Ps` in declared order and returning that of `R`. */
  lemma FunctionSignatureIsMethodDescriptor(ret: HostType, types: seq<HostType>)
    requires Declared(ret) && Terminated(ret)
    requires AllDeclared(types) && AllTerminated(types) && NoVoid(types)
    ensures Text(BuildFunctionSignature(ret, types))
            == Jvms.MethodText(Jvms.MethodDescriptor(FieldTypesOf(types), ReturnOf(ret)))
  {
    FqcnifyIsDescriptor(ret);
    DescriptorTextsAreParameterText(types);
  }

  /** The Java type of a non-void type whose mirror names a class is a
      well-formed field type. */
  lemma FieldTypeWellFormed(t: HostType)
    requires t != Void && Declared(t) && NamesClass(t)
    ensures Jvms.WellFormed(FieldTypeOf(t))
  {
    StringClassIsValid();
  }

  /** And the JVM parses it back to exactly those types. */
  lemma FunctionSignatureParses(ret: HostType, types: seq<HostType>)
    requires Declared(ret) && NamesClass(ret)
    requires AllDeclared(types) && NoVoid(types)
    requires forall i :: 0 <= i < |types| ==> NamesClass(types[i])
    ensures Jvms.ParseMethod(Text(BuildFunctionSignature(ret, types)))
            == Some(Jvms.MethodDescriptor(FieldTypesOf(types), ReturnOf(ret)))
  {
    var m := Jvms.MethodDescriptor(FieldTypesOf(types), ReturnOf(ret));
    var text := Text(BuildFunctionSignature(ret, types));
    assert text == Jvms.MethodText(m) by {
      assert AllTerminated(types);
      FunctionSignatureIsMethodDescriptor(ret, types);
    }
    assert Jvms.MethodWellFormed(m) by {
      forall i | 0 <= i < |types| ensures Jvms.WellFormed(m.params[i]) {
        FieldTypeWellFormed(types[i]);
      }
      if ret != Void {
        FieldTypeWellFormed(ret);
      }
    }
    Jvms.ParseMethodExactly(text, m);
  }
}
