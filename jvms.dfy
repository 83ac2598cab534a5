/** The descriptor grammar of The Java Virtual Machine Specification,
    section 4.3.2 (field descriptors) and section 4.3.3 (method
    descriptors), with class names in the internal form of section 4.2.1:
    the types a descriptor denotes, their text, and a parser that is
    proved to be exactly the inverse of the text. This is the reference the
    bridge's descriptors are checked against. */
module Jvms {
  import opened Wrappers

  /** BaseType of section 4.3.2. */
  datatype BaseType = Byte | Char | Double | Float | Int | Long | Short | Boolean

  /** FieldType of section 4.3.2: a base type, a class (`ObjectType`) named
      in internal form, or an array of a component type. */
  datatype FieldType = Base(base: BaseType) | Object(className: seq<char>) | Array(component: FieldType)

  /** ReturnDescriptor of section 4.3.3: `V` or a field type. */
  datatype ReturnDescriptor = VoidDescriptor | Returns(field: FieldType)

  /** MethodDescriptor of section 4.3.3. */
  datatype MethodDescriptor = MethodDescriptor(params: seq<FieldType>, ret: ReturnDescriptor)

  /** The character of each base type (table 4.3-A). */
  function BaseChar(b: BaseType): char {
    match b
    case Byte => 'B'
    case Char => 'C'
    case Double => 'D'
    case Float => 'F'
    case Int => 'I'
    case Long => 'J'
    case Short => 'S'
    case Boolean => 'Z'
  }

  /** The base type a character denotes, if any. */
  function BaseOf(c: char): (r: Option<BaseType>)
    ensures r.Some? ==> BaseChar(r.value) == c
    ensures r.None? ==> forall b: BaseType :: BaseChar(b) != c
  {
    match c
    case 'B' => Some(Byte)
    case 'C' => Some(Char)
    case 'D' => Some(Double)
    case 'F' => Some(Float)
    case 'I' => Some(Int)
    case 'J' => Some(Long)
    case 'S' => Some(Short)
    case 'Z' => Some(Boolean)
    case _ => None
  }

  /** A binary class name in internal form (section 4.2.1): identifiers
      separated by `/`, none empty, and none holding `.`, `;`, `[` or `/`. */
  predicate ValidClassName(n: seq<char>) {
    && |n| >= 1
    && '.' !in n && ';' !in n && '[' !in n
    && n[0] != '/' && n[|n| - 1] != '/'
    && forall i :: 0 <= i < |n| - 1 ==> !(n[i] == '/' && n[i + 1] == '/')
  }

  predicate WellFormed(t: FieldType) {
    match t
    case Base(_) => true
    case Object(n) => ValidClassName(n)
    case Array(c) => WellFormed(c)
  }

  predicate AllWellFormed(ts: seq<FieldType>) {
    forall i :: 0 <= i < |ts| ==> WellFormed(ts[i])
  }

  predicate MethodWellFormed(m: MethodDescriptor) {
    AllWellFormed(m.params) && (m.ret.Returns? ==> WellFormed(m.ret.field))
  }

  /** The FieldDescriptor text of a type. */
  function Descriptor(t: FieldType): seq<char> {
    match t
    case Base(b) => [BaseChar(b)]
    case Object(n) => "L" + n + ";"
    case Array(c) => "[" + Descriptor(c)
  }

  /** The descriptors of a parameter list, one after the other. */
  function ParameterText(ts: seq<FieldType>): seq<char> {
    if ts == [] then [] else Descriptor(ts[0]) + ParameterText(ts[1..])
  }

  function ReturnText(r: ReturnDescriptor): seq<char> {
    match r
    case VoidDescriptor => "V"
    case Returns(t) => Descriptor(t)
  }

  /** The MethodDescriptor text: `(`, the parameter descriptors, `)`, the
      return descriptor. */
  function MethodText(m: MethodDescriptor): seq<char> {
    "(" + ParameterText(m.params) + ")" + ReturnText(m.ret)
  }

  // ---------------------------------------------------------------------
  // Parsing
  // ---------------------------------------------------------------------

  /** The position of the first `;` at or after `i`. */
  function SemicolonFrom(s: seq<char>, i: nat): (r: Option<nat>)
    requires i <= |s|
    ensures r.Some? ==> i <= r.value < |s| && s[r.value] == ';'
                        && forall k :: i <= k < r.value ==> s[k] != ';'
    ensures r.None? ==> forall k :: i <= k < |s| ==> s[k] != ';'
    decreases |s| - i
  {
    if i == |s| then None
    else if s[i] == ';' then Some(i)
    else SemicolonFrom(s, i + 1)
  }

  /** Parses one field type at the front of `s`: the type and the text
      after its descriptor. Whatever it accepts is a well-formed type whose
      descriptor is exactly the text it consumed. */
  function ParseField(s: seq<char>): (r: Option<(FieldType, seq<char>)>)
    ensures r.Some? ==> WellFormed(r.value.0) && s == Descriptor(r.value.0) + r.value.1
                        && |r.value.1| < |s|
    decreases |s|
  {
    if |s| == 0 then None
    else if s[0] == '[' then
      match ParseField(s[1..])
      case Some((c, rest)) => Some((Array(c), rest))
      case None => None
    else if s[0] == 'L' then
      match SemicolonFrom(s, 1)
      case Some(j) =>
        if ValidClassName(s[1..j]) then
          assert s == "L" + s[1..j] + ";" + s[j + 1..];
          Some((Object(s[1..j]), s[j + 1..]))
        else None
      case None => None
    else
      match BaseOf(s[0])
      case Some(b) => Some((Base(b), s[1..]))
      case None => None
  }

  /** Parses field types up to and including the `)` that closes a
      parameter list. */
  function ParseParameters(s: seq<char>): (r: Option<(seq<FieldType>, seq<char>)>)
    ensures r.Some? ==> AllWellFormed(r.value.0) && s == ParameterText(r.value.0) + ")" + r.value.1
    decreases |s|
  {
    if |s| == 0 then None
    else if s[0] == ')' then
      Some(([], s[1..]))
    else
      match ParseField(s)
      case None => None
      case Some((t, rest)) =>
        match ParseParameters(rest)
        case None => None
        case Some((ts, after)) =>
          var all := [t] + ts;
          assert all[0] == t && all[1..] == ts;
          assert ParameterText(all) == Descriptor(t) + ParameterText(ts);
          assert s == ParameterText(all) + ")" + after;
          Some((all, after))
  }

  /** Parses a return descriptor at the front of `s`. */
  function ParseReturn(s: seq<char>): (r: Option<(ReturnDescriptor, seq<char>)>)
    ensures r.Some? ==> (r.value.0.Returns? ==> WellFormed(r.value.0.field))
                        && s == ReturnText(r.value.0) + r.value.1
  {
    if |s| >= 1 && s[0] == 'V' then
      Some((VoidDescriptor, s[1..]))
    else
      match ParseField(s)
      case Some((t, rest)) => Some((Returns(t), rest))
      case None => None
  }

  /** Parses a whole method descriptor; nothing may follow it. */
  function ParseMethod(s: seq<char>): (r: Option<MethodDescriptor>)
    ensures r.Some? ==> MethodWellFormed(r.value) && MethodText(r.value) == s
  {
    if |s| == 0 || s[0] != '(' then None
    else
      match ParseParameters(s[1..])
      case None => None
      case Some((ts, rest)) =>
        match ParseReturn(rest)
        case None => None
        case Some((rt, after)) =>
          if after == [] then
            assert MethodText(MethodDescriptor(ts, rt)) == s by {
              assert rest == ReturnText(rt);
              assert s == "(" + s[1..];
              assert s[1..] == ParameterText(ts) + ")" + rest;
            }
            Some(MethodDescriptor(ts, rt))
          else None
  }

  // ---------------------------------------------------------------------
  // Every well-formed descriptor is parsed back
  // ---------------------------------------------------------------------

  /** No field descriptor starts like the end of a parameter list or like
      the void return. */
  lemma DescriptorStart(t: FieldType)
    ensures |Descriptor(t)| >= 1 && Descriptor(t)[0] != ')' && Descriptor(t)[0] != 'V'
  {
    match t
    case Base(b) =>
    case Object(_) =>
    case Array(_) =>
  }

  lemma {:induction false} ParseFieldComplete(t: FieldType, rest: seq<char>)
    requires WellFormed(t)
    ensures ParseField(Descriptor(t) + rest) == Some((t, rest))
  {
    var s := Descriptor(t) + rest;
    match t
    case Base(b) =>
      assert s[1..] == rest;
    case Object(n) =>
      var j := |n| + 1;
      assert s[1..j] == n;
      assert s[j + 1..] == rest;
      assert s[j] == ';';
      forall k | 1 <= k < j ensures s[k] != ';' {
        assert s[k] == n[k - 1];
      }
    case Array(c) =>
      assert s[1..] == Descriptor(c) + rest;
      ParseFieldComplete(c, rest);
  }

  lemma {:induction false} ParseParametersComplete(ts: seq<FieldType>, rest: seq<char>)
    requires AllWellFormed(ts)
    ensures ParseParameters(ParameterText(ts) + ")" + rest) == Some((ts, rest))
  {
    var s := ParameterText(ts) + ")" + rest;
    if ts == [] {
      assert s == [')'] + rest;
    } else {
      var d := Descriptor(ts[0]);
      var tail := ParameterText(ts[1..]) + ")" + rest;
      assert s == d + tail;
      DescriptorStart(ts[0]);
      ParseFieldComplete(ts[0], tail);
      assert AllWellFormed(ts[1..]) by {
        forall m | 0 <= m < |ts[1..]| ensures WellFormed(ts[1..][m]) {
          assert ts[1..][m] == ts[m + 1];
        }
      }
      ParseParametersComplete(ts[1..], rest);
      assert [ts[0]] + ts[1..] == ts;
    }
  }

  lemma ParseMethodComplete(m: MethodDescriptor)
    requires MethodWellFormed(m)
    ensures ParseMethod(MethodText(m)) == Some(m)
  {
    var s := MethodText(m);
    var rt := ReturnText(m.ret);
    assert s[1..] == ParameterText(m.params) + ")" + rt;
    ParseParametersComplete(m.params, rt);
    if m.ret.Returns? {
      DescriptorStart(m.ret.field);
      ParseFieldComplete(m.ret.field, []);
      assert rt + [] == rt;
    } else {
      assert rt[1..] == [];
    }
  }

  /** A text is a method descriptor exactly when it is the text of a
      well-formed one, and the parse recovers that one. */
  lemma ParseMethodExactly(s: seq<char>, m: MethodDescriptor)
    ensures ParseMethod(s) == Some(m) <==> MethodWellFormed(m) && s == MethodText(m)
  {
    if MethodWellFormed(m) && s == MethodText(m) {
      ParseMethodComplete(m);
    }
  }

  /** The same for a single field descriptor. */
  lemma ParseFieldExactly(s: seq<char>, t: FieldType)
    ensures ParseField(s) == Some((t, [])) <==> WellFormed(t) && s == Descriptor(t)
  {
    if WellFormed(t) && s == Descriptor(t) {
      ParseFieldComplete(t, []);
      assert s + [] == s;
    }
  }
}
