/** Encoding a whole call: argument shape, then each declared parameter in order. */
module Call {
  import opened Basics
  import opened Json
  import opened ScVal
  import opened Spec
  import opened Encoder
  import Render

  datatype EncodeError =
    | FunctionNotFound(name: string)
    | MissingArgument(name: string)
    | UnknownArgument(name: string)
    | WrongArity(expected: nat, got: nat)
    | Argument(name: string, why: ArgError)

  /** The argument values to simulate with, and the declared return type. */
  datatype EncodedCall = EncodedCall(args: seq<ScVal>, outputType: string, output: Option<TypeDef>)

  /** The first object key that is no parameter. */
  function UnknownKey(ms: seq<Member>, inputs: seq<Field>): Option<string> {
    if ms == [] then None
    else if Find(FieldName, inputs, ms[0].key).None? then Some(ms[0].key)
    else UnknownKey(ms[1..], inputs)
  }

  function ShapeError(args: Json, inputs: seq<Field>): Option<EncodeError> {
    match args
    case Object(ms) => (match UnknownKey(ms, inputs) case Some(key) => Some(UnknownArgument(key)) case None => None)
    case Array(items) => if |items| != |inputs| then Some(WrongArity(|inputs|, |items|)) else None
    case _ => None
  }

  /** By name from an object, by position from an array. */
  function ArgumentFor(args: Json, name: string, i: nat): Option<Json> {
    match args
    case Object(ms) => Get(ms, name)
    case Array(items) => if i < |items| then Some(items[i]) else None
    case _ => None
  }

  function EncodeInputs(args: Json, inputs: seq<Field>, i: nat, spec: ContractSpec, keys: Strkey)
    : Result<seq<ScVal>, EncodeError>
    requires i <= |inputs|
    decreases |inputs| - i
  {
    if i == |inputs| then Ok([])
    else
      var input := inputs[i];
      match ArgumentFor(args, input.name, i)
      case None => Err(MissingArgument(input.name))
      case Some(v) =>
        match Encode(v, input.ty, spec, keys)
        case Err(e) => Err(Argument(input.name, e))
        case Ok(sv) =>
          match EncodeInputs(args, inputs, i + 1, spec, keys)
          case Err(e) => Err(e)
          case Ok(rest) => Ok([sv] + rest)
  }

  function OutputType(outputs: seq<TypeDef>): string {
    if outputs == [] then "void" else Render.TypeName(outputs[0])
  }

  /** `encode_call_with_spec`, up to the transaction envelope. */
  function EncodeCall(spec: ContractSpec, name: string, args: Json, keys: Strkey): Result<EncodedCall, EncodeError> {
    match Find(FunctionName, spec.functions, name)
    case None => Err(FunctionNotFound(name))
    case Some(f) =>
      match ShapeError(args, f.inputs)
      case Some(e) => Err(e)
      case None =>
        match EncodeInputs(args, f.inputs, 0, spec, keys)
        case Err(e) => Err(e)
        case Ok(svs) =>
          var output := if f.outputs == [] then None else Some(f.outputs[0]);
          Ok(EncodedCall(svs, OutputType(f.outputs), output))
  }

  // ---- what a call encodes to ----

  /** The value given for parameter `i`, if there is one: by name in an object, by position in an array. */
  ghost predicate Gives(args: Json, inputs: seq<Field>, i: nat, v: Json)
    requires i < |inputs|
  {
    || (args.Object? && inputs[i].name in Keys(args.members) && Get(args.members, inputs[i].name) == Some(v))
    || (args.Array? && i < |args.items| && args.items[i] == v)
  }

  /** The arguments fit the parameters: every key is a parameter's name, or there are as many items as parameters. */
  ghost predicate Fits(args: Json, inputs: seq<Field>) {
    && (args.Object? ==> forall k | k in Keys(args.members) :: exists i :: 0 <= i < |inputs| && inputs[i].name == k)
    && (args.Array? ==> |args.items| == |inputs|)
  }

  /** Parameter `i` is given a value of its type. */
  ghost predicate Encodes(args: Json, inputs: seq<Field>, i: nat, spec: ContractSpec, keys: Strkey)
    requires i < |inputs|
  {
    exists v :: Gives(args, inputs, i, v) && Encode(v, inputs[i].ty, spec, keys).Ok?
  }

  /** Argument `i` is what the value given for parameter `i` encodes to at its type. */
  ghost predicate EncodedAt(args: Json, inputs: seq<Field>, i: nat, sv: ScVal, spec: ContractSpec, keys: Strkey)
    requires i < |inputs|
  {
    exists v :: Gives(args, inputs, i, v) && Encode(v, inputs[i].ty, spec, keys) == Ok(sv)
  }

  /** A call encodes exactly when its arguments fit and each parameter is given a value of its type; then argument `i`
      is what that value encodes to, and the output is the first one declared. */
  lemma CallEncodesIff(spec: ContractSpec, name: string, args: Json, f: FunctionSpec, keys: Strkey)
    requires Find(FunctionName, spec.functions, name) == Some(f)
    ensures var r := EncodeCall(spec, name, args, keys);
      && (r.Ok? <==> Fits(args, f.inputs) && forall i :: 0 <= i < |f.inputs| ==> Encodes(args, f.inputs, i, spec, keys))
      && (r.Ok? ==>
            && |r.value.args| == |f.inputs|
            && (forall i :: 0 <= i < |f.inputs| ==> EncodedAt(args, f.inputs, i, r.value.args[i], spec, keys))
            && (f.outputs == [] ==> r.value.output == None && r.value.outputType == "void")
            && (f.outputs != [] ==>
                  r.value.output == Some(f.outputs[0]) && r.value.outputType == Render.TypeName(f.outputs[0])))
  {
    hide Encode, Find;
    ShapeFits(args, f.inputs);
    InputsEncodeIff(args, f.inputs, 0, spec, keys);
  }

  lemma {:induction false} UnknownKeyIff(ms: seq<Member>, inputs: seq<Field>)
    ensures UnknownKey(ms, inputs).None? <==>
            forall k | k in Keys(ms) :: exists i :: 0 <= i < |inputs| && inputs[i].name == k
    ensures UnknownKey(ms, inputs).Some? ==>
              UnknownKey(ms, inputs).value in Keys(ms)
              && forall i :: 0 <= i < |inputs| ==> inputs[i].name != UnknownKey(ms, inputs).value
  {
    if ms != [] {
      var found := Find(FieldName, inputs, ms[0].key);
      UnknownKeyIff(ms[1..], inputs);
      KeysOfCons(ms[0], ms[1..]);
      assert ms == [ms[0]] + ms[1..];
      if found.Some? {
        var i :| 0 <= i < |inputs| && inputs[i] == found.value;
        assert inputs[i].name == ms[0].key;
      } else {
        forall i | 0 <= i < |inputs| ensures inputs[i].name != ms[0].key { assert inputs[i] in inputs; }
      }
    }
  }

  lemma ShapeFits(args: Json, inputs: seq<Field>)
    ensures ShapeError(args, inputs).None? <==> Fits(args, inputs)
  {
    if args.Object? { UnknownKeyIff(args.members, inputs); }
  }

  lemma GivenIff(args: Json, inputs: seq<Field>, i: nat)
    requires i < |inputs|
    ensures forall v :: Gives(args, inputs, i, v) <==> ArgumentFor(args, inputs[i].name, i) == Some(v)
  {
  }

  lemma {:induction false} InputsEncodeIff(args: Json, inputs: seq<Field>, i: nat, spec: ContractSpec, keys: Strkey)
    requires i <= |inputs|
    ensures var r := EncodeInputs(args, inputs, i, spec, keys);
      && (r.Ok? <==> forall j :: i <= j < |inputs| ==> Encodes(args, inputs, j, spec, keys))
      && (r.Ok? ==> |r.value| == |inputs| - i
                    && forall k :: 0 <= k < |r.value| ==> EncodedAt(args, inputs, i + k, r.value[k], spec, keys))
    decreases |inputs| - i
  {
    hide Encode, Gives;
    if i < |inputs| {
      GivenIff(args, inputs, i);
      var given := ArgumentFor(args, inputs[i].name, i);
      assert given.Some? ==> Gives(args, inputs, i, given.value);
      assert Encodes(args, inputs, i, spec, keys) <==> given.Some? && Encode(given.value, inputs[i].ty, spec, keys).Ok?;
      InputsEncodeIff(args, inputs, i + 1, spec, keys);
      var r := EncodeInputs(args, inputs, i, spec, keys);
      hide ArgumentFor;
      if r.Ok? {
        var rest := EncodeInputs(args, inputs, i + 1, spec, keys).value;
        forall j | i <= j < |inputs| ensures Encodes(args, inputs, j, spec, keys) {}
        forall k | 0 <= k < |r.value| ensures EncodedAt(args, inputs, i + k, r.value[k], spec, keys) {
          if k > 0 { assert r.value[k] == rest[k - 1] && i + k == i + 1 + (k - 1); }
        }
      }
    }
  }

  /** The same values by name, in any order, and by position encode to the same call. */
  lemma NamesAndPositionsAgree(spec: ContractSpec, name: string, ms: seq<Member>, items: seq<Json>, f: FunctionSpec,
                               keys: Strkey)
    requires Find(FunctionName, spec.functions, name) == Some(f) && |items| == |f.inputs|
    requires Fits(Object(ms), f.inputs)
    requires forall i :: 0 <= i < |items| ==> Get(ms, f.inputs[i].name) == Some(items[i])
    ensures EncodeCall(spec, name, Object(ms), keys) == EncodeCall(spec, name, Array(items), keys)
  {
    hide Encode, Find;
    ShapeFits(Object(ms), f.inputs);
    SameInputs(ms, items, f.inputs, 0, spec, keys);
  }

  lemma {:induction false} SameInputs(ms: seq<Member>, items: seq<Json>, inputs: seq<Field>, i: nat, spec: ContractSpec,
                                      keys: Strkey)
    requires i <= |inputs| == |items|
    requires forall j :: 0 <= j < |items| ==> Get(ms, inputs[j].name) == Some(items[j])
    ensures EncodeInputs(Object(ms), inputs, i, spec, keys) == EncodeInputs(Array(items), inputs, i, spec, keys)
    decreases |inputs| - i
  {
    hide Encode;
    if i < |inputs| { SameInputs(ms, items, inputs, i + 1, spec, keys); }
  }

  // ---- why a call is refused ----

  /** The first parameter that fails: nothing is given for it, or what is given is not of its type. */
  ghost predicate FailsFirst(args: Json, inputs: seq<Field>, i: nat, spec: ContractSpec, keys: Strkey) {
    i < |inputs| && !Encodes(args, inputs, i, spec, keys)
    && forall j :: 0 <= j < i ==> Encodes(args, inputs, j, spec, keys)
  }

  /** Each refusal says what is wrong: no such function, the wrong number of items, a key that names no parameter, or
      the first parameter that fails. */
  lemma RefusalMeans(spec: ContractSpec, name: string, args: Json, keys: Strkey)
    requires EncodeCall(spec, name, args, keys).Err?
    ensures match EncodeCall(spec, name, args, keys).error
      case FunctionNotFound(n) => n == name && forall f :: f in spec.functions ==> f.name != name
      case WrongArity(expected, got) =>
        var f := Find(FunctionName, spec.functions, name);
        f.Some? && args.Array? && |f.value.inputs| == expected != got == |args.items|
      case UnknownArgument(k) =>
        var f := Find(FunctionName, spec.functions, name);
        f.Some? && args.Object? && k in Keys(args.members)
        && forall i :: 0 <= i < |f.value.inputs| ==> f.value.inputs[i].name != k
      case MissingArgument(p) =>
        var f := Find(FunctionName, spec.functions, name);
        f.Some? && Fits(args, f.value.inputs)
        && exists i: nat :: FailsFirst(args, f.value.inputs, i, spec, keys) && f.value.inputs[i].name == p
             && forall v :: !Gives(args, f.value.inputs, i, v)
      case Argument(p, why) =>
        var f := Find(FunctionName, spec.functions, name);
        f.Some? && Fits(args, f.value.inputs)
        && exists i: nat :: FailsFirst(args, f.value.inputs, i, spec, keys) && f.value.inputs[i].name == p
             && exists v :: Gives(args, f.value.inputs, i, v) && Encode(v, f.value.inputs[i].ty, spec, keys) == Err(why)
  {
    hide Encode, Gives;
    match Find(FunctionName, spec.functions, name)
    case None =>
    case Some(f) =>
      ShapeFits(args, f.inputs);
      if args.Object? { UnknownKeyIff(args.members, f.inputs); }
      if Fits(args, f.inputs) {
        var at := FirstFailure(args, f.inputs, 0, spec, keys);
        GivenIff(args, f.inputs, at);
      }
  }

  lemma {:induction false} FirstFailure(args: Json, inputs: seq<Field>, i: nat, spec: ContractSpec, keys: Strkey)
    returns (at: nat)
    requires i <= |inputs| && EncodeInputs(args, inputs, i, spec, keys).Err?
    requires forall j :: 0 <= j < i ==> Encodes(args, inputs, j, spec, keys)
    ensures FailsFirst(args, inputs, at, spec, keys)
    ensures var e := EncodeInputs(args, inputs, i, spec, keys).error;
      match ArgumentFor(args, inputs[at].name, at)
      case None => e == MissingArgument(inputs[at].name)
      case Some(v) =>
        Encode(v, inputs[at].ty, spec, keys).Err?
        && e == Argument(inputs[at].name, Encode(v, inputs[at].ty, spec, keys).error)
    decreases |inputs| - i
  {
    hide Encode, Gives, ArgumentFor;
    GivenIff(args, inputs, i);
    if Encodes(args, inputs, i, spec, keys) { at := FirstFailure(args, inputs, i + 1, spec, keys); } else { at := i; }
  }
}
