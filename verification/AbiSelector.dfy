/** The textual signature a call is selected by. The hash is a parameter. */
module AbiSelector {
  import opened Wrappers
  import opened Sequences

  datatype SolidityType = SolidityType(ty: string, isArray: bool)

  function TypeName(t: SolidityType): string
  {
    t.ty + (if t.isArray then "[]" else "")
  }

  /** Type names separated by commas. */
  function ParamList(types: seq<SolidityType>): string
  {
    if types == [] then ""
    else if |types| == 1 then TypeName(types[0])
    else ParamList(types[..|types| - 1]) + ("," + TypeName(types[|types| - 1]))
  }

  function Signature(name: string, types: seq<SolidityType>): string
  {
    name + "(" + ParamList(types) + ")"
  }

  class ContractFunctionSelector {
    var function_: Option<string>
    var params: string
    var paramTypes: seq<SolidityType>

    /** The text kept up to date is the list of the types added. */
    ghost predicate Valid()
      reads this
    {
      params == ParamList(paramTypes)
    }

    constructor (name: string)
      ensures Valid() && paramTypes == []
      ensures function_ == if name == "" then None else Some(name)
    {
      function_ := if name == "" then None else Some(name);
      params := "";
      paramTypes := [];
    }

    method AddParam(ty: SolidityType)
      requires Valid()
      modifies this`params, this`paramTypes
      ensures Valid() && paramTypes == old(paramTypes) + [ty]
    {
      if |paramTypes| > 0 {
        params := params + ",";
      }
      params := params + ty.ty;
      if ty.isArray {
        params := params + "[]";
      }
      paramTypes := paramTypes + [ty];
      assert paramTypes[..|paramTypes| - 1] == old(paramTypes);
    }

    function String(): (s: string)
      requires Valid()
      reads this
      ensures s == Signature(if function_.Some? then function_.value else "", paramTypes)
    {
      (if function_.Some? then function_.value else "") + "(" + params + ")"
    }

    /** The first four bytes of the hashed signature; a name given here is kept. */
    method Build(name: Option<string>, keccak: string -> seq<byte>) returns (r: seq<byte>)
      requires Valid() && (name.Some? || function_.Some?)
      requires forall s: string :: |keccak(s)| == 32
      modifies this`function_
      ensures Valid() && function_ == if name.Some? then name else old(function_)
      ensures r == keccak(Signature(function_.value, paramTypes))[..4]
    {
      if name.Some? {
        function_ := name;
      }
      r := keccak(String())[..4];
    }
  }

  predicate PlainNames(types: seq<SolidityType>)
  {
    forall i :: 0 <= i < |types| ==> types[i].ty != "" && ',' !in types[i].ty && '[' !in types[i].ty
  }

  lemma TypeNamePlain(t: SolidityType)
    requires t.ty != "" && ',' !in t.ty
    ensures TypeName(t) != "" && ',' !in TypeName(t)
  {
  }

  /** Only the array marker brings a bracket. */
  lemma TypeNameBracket(t: SolidityType)
    requires '[' !in t.ty
    ensures '[' in TypeName(t) <==> t.isArray
    ensures t.ty == if t.isArray then TypeName(t)[..|TypeName(t)| - 2] else TypeName(t)
  {
    if t.isArray {
      assert TypeName(t)[|t.ty|] == '[';
      assert TypeName(t)[..|t.ty|] == t.ty;
    } else {
      assert TypeName(t) == t.ty;
    }
  }

  lemma TypeNameInjective(a: SolidityType, b: SolidityType)
    requires '[' !in a.ty && '[' !in b.ty && TypeName(a) == TypeName(b)
    ensures a == b
  {
    TypeNameBracket(a);
    TypeNameBracket(b);
  }

  /** A comma-free name behind the last comma bounds where any comma can be. */
  lemma NoCommaBehind(s: string, p: string, x: string, i: nat)
    requires s == p + ("," + x) && ',' !in x && i < |s| && s[i] == ','
    ensures i <= |p|
  {
    assert forall j :: |p| < j < |s| ==> s[j] == x[j - |p| - 1];
  }

  /** Text ending in a comma and a name without commas comes apart in one way. */
  lemma LastCommaUnique(p: string, x: string, q: string, y: string)
    requires ',' !in x && ',' !in y && p + ("," + x) == q + ("," + y)
    ensures p == q && x == y
  {
    var s := p + ("," + x);
    assert s[|p|] == ',' && s[|q|] == ',';
    NoCommaBehind(s, p, x, |q|);
    NoCommaBehind(s, q, y, |p|);
    assert s[..|p|] == p && s[..|q|] == q;
    assert s[|p| + 1..] == x && s[|q| + 1..] == y;
  }

  /** The parameter text determines the parameter types, so overloads never share a
      signature. */
  lemma {:induction false} ParamListInjective(a: seq<SolidityType>, b: seq<SolidityType>)
    requires PlainNames(a) && PlainNames(b) && ParamList(a) == ParamList(b)
    ensures a == b
  {
    ParamListShape(a);
    ParamListShape(b);
    if |a| >= 2 && |b| >= 2 {
      var n, m := |a| - 1, |b| - 1;
      TypeNamePlain(a[n]);
      TypeNamePlain(b[m]);
      LastCommaUnique(ParamList(a[..n]), TypeName(a[n]), ParamList(b[..m]), TypeName(b[m]));
      TypeNameInjective(a[n], b[m]);
      ParamListInjective(a[..n], b[..m]);
      assert a == a[..n] + [a[n]] && b == b[..m] + [b[m]];
    } else if |a| == 1 && |b| == 1 {
      TypeNameInjective(a[0], b[0]);
    }
  }

  lemma ParamListShape(types: seq<SolidityType>)
    requires PlainNames(types)
    ensures ParamList(types) == "" <==> types == []
    ensures ',' in ParamList(types) <==> |types| >= 2
  {
    if |types| == 1 {
      TypeNamePlain(types[0]);
    } else if |types| >= 2 {
      var init, last := ParamList(types[..|types| - 1]), TypeName(types[|types| - 1]);
      assert (init + ("," + last))[|init|] == ',';
    }
  }
}
