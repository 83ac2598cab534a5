/** The `tokenizer` namespace of jbridge.hpp: method descriptors built by
    concatenating the descriptors of a member's parameter and return types. */
module Tokenizer {
  import opened Str
  import opened Traits

  /** Every mirror among `types` has a non-empty `CLASS_SIGNATURE`. */
  predicate AllDeclared(types: seq<HostType>) {
    forall i :: 0 <= i < |types| ==> Declared(types[i])
  }

  /** Every mirror among `types` has a terminated `CLASS_SIGNATURE`. */
  predicate AllTerminated(types: seq<HostType>) {
    forall i :: 0 <= i < |types| ==> Terminated(types[i])
  }

  /** `fqcnify<Types>()...`: the descriptor arrays of `types`, in order. */
  function Descriptors(types: seq<HostType>): (r: seq<seq<char>>)
    requires AllDeclared(types)
    ensures |r| == |types|
    ensures forall i :: 0 <= i < |r| ==> r[i] == Fqcnify(types[i])
  {
    seq(|types|, i requires 0 <= i < |types| => Fqcnify(types[i]))
  }

  /** The descriptor texts of `types`, one after the other. */
  function DescriptorTexts(types: seq<HostType>): seq<char>
    requires AllDeclared(types)
  {
    if types == [] then [] else Text(Fqcnify(types[0])) + DescriptorTexts(types[1..])
  }

  lemma {:induction false} TextsOfDescriptors(types: seq<HostType>)
    requires AllDeclared(types)
    ensures Texts(Descriptors(types)) == DescriptorTexts(types)
  {
    if types != [] {
      assert Descriptors(types)[1..] == Descriptors(types[1..]);
      TextsOfDescriptors(types[1..]);
    }
  }

  /** The arrays `build_param_signature` joins: `(`, the parameters'
      descriptors, `)`. */
  function ParamParts(types: seq<HostType>): (r: seq<seq<char>>)
    requires AllDeclared(types)
    ensures |r| == |types| + 2
    ensures forall i :: 0 <= i < |r| ==> |r[i]| >= 1
  {
    [Arrayify("(")] + Descriptors(types) + [Arrayify(")")]
  }

  lemma ParamPartsTexts(types: seq<HostType>)
    requires AllDeclared(types)
    ensures AllTerminated(types) ==>
              AllCStrings(ParamParts(types)) && Texts(ParamParts(types)) == "(" + DescriptorTexts(types) + ")"
  {
    if AllTerminated(types) {
      var open, descriptors, close := [Arrayify("(")], Descriptors(types), [Arrayify(")")];
      assert ParamParts(types) == open + descriptors + close;
      TextsAppend(open + descriptors, close);
      TextsAppend(open, descriptors);
      TextsOfDescriptors(types);
      assert Texts(close) == ")";
      assert Texts(open) == "(";
    }
  }

  /** `build_param_signature<Types...>()` (jbridge.hpp:1132-1135):
      `(`, the parameters' descriptors in declared order, then `)`. */
  function BuildParamSignature(types: seq<HostType>): (r: seq<char>)
    requires AllDeclared(types)
    ensures |r| >= 2
    ensures AllTerminated(types) ==> CString(r) && Text(r) == "(" + DescriptorTexts(types) + ")"
  {
    ParamPartsTexts(types);
    AddAll(ParamParts(types))
  }

  /** `build_return_signature<ReturnType>()` (jbridge.hpp:1137-1140). */
  function BuildReturnSignature(ret: HostType): (r: seq<char>)
    requires Declared(ret)
    ensures |r| >= 2
    ensures Terminated(ret) ==> CString(r) && Text(r) == Text(Fqcnify(ret))
  {
    Fqcnify(ret)
  }

  lemma FunctionPartsTexts(ret: HostType, types: seq<HostType>)
    requires Declared(ret) && AllDeclared(types)
    ensures Terminated(ret) && AllTerminated(types) ==>
              var r := AddAll([BuildParamSignature(types), BuildReturnSignature(ret)]);
              CString(r) && Text(r) == "(" + DescriptorTexts(types) + ")" + Text(Fqcnify(ret))
  {
    if Terminated(ret) && AllTerminated(types) {
      var params, result := BuildParamSignature(types), BuildReturnSignature(ret);
      assert AllCStrings([params, result]);
      TextsOfPair(params, result);
    }
  }

  /** `build_function_signature<ReturnType, Types...>()`
      (jbridge.hpp:1142-1145): the parameter part, then the return type's
      descriptor. */
  function BuildFunctionSignature(ret: HostType, types: seq<HostType>): (r: seq<char>)
    requires Declared(ret) && AllDeclared(types)
    ensures Terminated(ret) && AllTerminated(types) ==>
              CString(r) && Text(r) == "(" + DescriptorTexts(types) + ")" + Text(Fqcnify(ret))
  {
    FunctionPartsTexts(ret, types);
    AddAll([BuildParamSignature(types), BuildReturnSignature(ret)])
  }
}
