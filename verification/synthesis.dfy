/** The firmware-module info synthesizer: resolves every module instance
    against its module type, copying type-level fields down, filling
    positional constructor arguments from the type's defaults and merging
    each input and output port descriptor with the type's. */
module Synthesis {
  import opened Results
  import opened Values

  /** Category tag given to an input port that names no categories. */
  const ACTUATORS: string := "actuators"
  /** Category tag given to an output port that names no categories. */
  const SENSORS: string := "sensors"

  const VARIABLE: string := "variable"
  const CATEGORIES: string := "categories"
  const DEFAULT: string := "default"

  /** A module type: a reusable schema of a firmware component. Every entry
      of `arguments` describes one positional constructor argument and may
      carry a `default`. An absent `arguments`, `inputs` or `outputs` field
      is the empty one. */
  datatype ModuleType = ModuleType(
    repository: Option<Value>,
    headerFile: Value,
    className: Value,
    dependencies: Option<Value>,
    arguments: seq<Dict>,
    inputs: Ports,
    outputs: Ports)

  /** A module instance, before or after synthesis (the synthesizer returns
      the same kind of record, enriched). `typeId` names its module type;
      `others` holds every further field of the stored document, which the
      synthesizer carries through untouched. An absent `arguments`, `inputs`
      or `outputs` field is the empty one. */
  datatype Module = Module(
    typeId: string,
    repository: Option<Value>,
    headerFile: Option<Value>,
    className: Option<Value>,
    dependencies: Option<Value>,
    arguments: seq<Value>,
    inputs: Ports,
    outputs: Ports,
    others: Dict)

  /** The fields of a module document that the record models by name. */
  const NAMED_FIELDS: set<string> :=
    {"type", "repository", "header_file", "class_name", "dependencies", "arguments", "inputs", "outputs"}

  /** `others` holds only the fields the record does not name, so that the
      record stands for exactly one stored document. */
  ghost predicate WellFormed(m: Module) {
    forall key | key in m.others :: key !in NAMED_FIELDS
  }

  /** Why synthesis aborts. `got` and `expected` are the argument counts the
      error message reports. */
  datatype SynthError =
    | UnknownType(moduleId: string, typeId: string)
    | TooManyArguments(moduleId: string, got: nat, expected: nat)
    | NotEnoughArguments(moduleId: string, got: nat, expected: nat)

  /** Every type argument from position `from` on declares a default. */
  ghost predicate DefaultsFrom(typeArgs: seq<Dict>, from: nat) {
    forall i | from <= i < |typeArgs| :: DEFAULT in typeArgs[i]
  }

  /** `k` is the first position at or after `from` whose type argument has
      no default. */
  ghost predicate FirstMissingDefault(typeArgs: seq<Dict>, from: nat, k: nat) {
    && from <= k < |typeArgs|
    && DEFAULT !in typeArgs[k]
    && DefaultsFrom(typeArgs[..k], from)
  }

  /** `filled` is `args` completed, position by position, with the type's
      defaults up to the full length of `typeArgs`. */
  ghost predicate PaddedWithDefaults(filled: seq<Value>, args: seq<Value>, typeArgs: seq<Dict>) {
    && |args| <= |filled| == |typeArgs|
    && filled[..|args|] == args
    && forall i | |args| <= i < |typeArgs| :: DEFAULT in typeArgs[i] && filled[i] == typeArgs[i][DEFAULT]
  }

  /** The loop that appends the type's defaults to the supplied arguments,
      left to right, until every declared position is filled; it stops at the
      first position that has no default. */
  function PadArguments(moduleId: string, args: seq<Value>, typeArgs: seq<Dict>): (r: Result<seq<Value>, SynthError>)
    requires |args| <= |typeArgs|
    ensures r.Success? <==> DefaultsFrom(typeArgs, |args|)
    ensures r.Success? ==> PaddedWithDefaults(r.value, args, typeArgs)
    ensures r.Failure? ==> r.error.NotEnoughArguments?
    ensures r.Failure? ==> r.error == NotEnoughArguments(moduleId, r.error.got, |typeArgs|)
    ensures r.Failure? ==> FirstMissingDefault(typeArgs, |args|, r.error.got)
    decreases |typeArgs| - |args|
  {
    if |args| == |typeArgs| then Success(args)
    else
      var argInfo := typeArgs[|args|];
      if DEFAULT in argInfo then
        var r := PadArguments(moduleId, args + [argInfo[DEFAULT]], typeArgs);
        assert r.Success? ==> r.value[..|args|] == (args + [argInfo[DEFAULT]])[..|args|];
        assert r.Failure? ==> typeArgs[..r.error.got][..|args| + 1] == typeArgs[..|args| + 1];
        r
      else
        assert typeArgs[..|args|][..|args|] == typeArgs[..|args|];
        Failure(NotEnoughArguments(moduleId, |args|, |typeArgs|))
  }

  /** Resolves a module's positional arguments against its type's argument
      list: too many supplied arguments is an error, and so is a missing
      position whose type argument declares no default. */
  function FillArguments(moduleId: string, args: seq<Value>, typeArgs: seq<Dict>): (r: Result<seq<Value>, SynthError>)
    ensures r.Success? <==> |args| <= |typeArgs| && DefaultsFrom(typeArgs, |args|)
    ensures r.Success? ==> PaddedWithDefaults(r.value, args, typeArgs)
    ensures |args| > |typeArgs| ==> r == Failure(TooManyArguments(moduleId, |args|, |typeArgs|))
    ensures |args| <= |typeArgs| && r.Failure? ==>
      && r.error.NotEnoughArguments?
      && r.error == NotEnoughArguments(moduleId, r.error.got, |typeArgs|)
      && FirstMissingDefault(typeArgs, |args|, r.error.got)
  {
    if |args| > |typeArgs| then Failure(TooManyArguments(moduleId, |args|, |typeArgs|))
    else PadArguments(moduleId, args, typeArgs)
  }

  /** `d` is the type's descriptor `typeInfo` overlaid by the instance's
      `instanceInfo`, with `variable` and `categories` filled in when neither
      names them. */
  ghost predicate PortMerged(name: string, typeInfo: Dict, instanceInfo: Dict, tag: string, d: Dict) {
    && VARIABLE in d && CATEGORIES in d
    && (forall key | key in d :: key in typeInfo || key in instanceInfo || key == VARIABLE || key == CATEGORIES)
    && (forall key | key in instanceInfo :: key in d && d[key] == instanceInfo[key])
    && (forall key | key in typeInfo && key !in instanceInfo :: key in d && d[key] == typeInfo[key])
    && (VARIABLE !in typeInfo && VARIABLE !in instanceInfo ==> d[VARIABLE] == Str(name))
    && (CATEGORIES !in typeInfo && CATEGORIES !in instanceInfo ==> d[CATEGORIES] == Array([Str(tag)]))
  }

  /** One port of the type, resolved: the type's descriptor overlaid by the
      instance's descriptor of the same name, then `variable` defaulted to
      the port's name and `categories` to the single tag `tag`. */
  function MergePort(name: string, typeInfo: Dict, instanceInfo: Dict, tag: string): (d: Dict)
    ensures PortMerged(name, typeInfo, instanceInfo, tag, d)
  {
    var merged := typeInfo + instanceInfo;
    var withVariable := merged[VARIABLE := Get(merged, VARIABLE, Str(name))];
    withVariable[CATEGORIES := Get(withVariable, CATEGORIES, Array([Str(tag)]))]
  }

  /** Every port the type defines, resolved against the instance's
      descriptor of the same name (an absent one counts as empty). */
  function TypePorts(typePorts: Ports, instancePorts: Ports, tag: string): (r: Ports)
    ensures r.Keys == typePorts.Keys
    ensures forall name | name in typePorts ::
      PortMerged(name, typePorts[name], Get(instancePorts, name, map[]), tag, r[name])
  {
    map name | name in typePorts :: MergePort(name, typePorts[name], Get(instancePorts, name, map[]), tag)
  }

  /** The instance's ports with every port the type defines merged as
      `MergePort` merges it; ports only the instance names are kept as they
      are. */
  function MergePorts(typePorts: Ports, instancePorts: Ports, tag: string): (r: Ports)
    ensures r.Keys == typePorts.Keys + instancePorts.Keys
    ensures forall name | name in typePorts ::
      PortMerged(name, typePorts[name], Get(instancePorts, name, map[]), tag, r[name])
    ensures forall name | name in instancePorts && name !in typePorts :: r[name] == instancePorts[name]
  {
    instancePorts + TypePorts(typePorts, instancePorts, tag)
  }

  /** `res` is module `m` resolved against its type `t`. */
  ghost predicate Resolved(m: Module, t: ModuleType, res: Module) {
    && res.typeId == m.typeId
    && res.others == m.others
    && (WellFormed(res) <==> WellFormed(m))
    && res.headerFile == Some(t.headerFile)
    && res.className == Some(t.className)
    && (t.repository.Some? ==> res.repository == t.repository)
    && (t.repository.None? ==> res.repository == m.repository)
    && (t.dependencies.Some? ==> res.dependencies == t.dependencies)
    && (t.dependencies.None? ==> res.dependencies == m.dependencies)
    && PaddedWithDefaults(res.arguments, m.arguments, t.arguments)
    && res.inputs == MergePorts(t.inputs, m.inputs, ACTUATORS)
    && res.outputs == MergePorts(t.outputs, m.outputs, SENSORS)
  }

  /** Synthesizes one module: looks its type up, copies the type-level
      fields down, resolves the arguments and merges inputs and outputs. */
  function Resolve(moduleId: string, m: Module, moduleTypes: map<string, ModuleType>): (r: Result<Module, SynthError>)
    ensures m.typeId !in moduleTypes ==> r == Failure(UnknownType(moduleId, m.typeId))
    ensures m.typeId in moduleTypes ==>
      var t := moduleTypes[m.typeId];
      && (r.Success? <==> |m.arguments| <= |t.arguments| && DefaultsFrom(t.arguments, |m.arguments|))
      && (r.Failure? ==> Failure(r.error) == FillArguments(moduleId, m.arguments, t.arguments))
    ensures r.Success? ==> m.typeId in moduleTypes && Resolved(m, moduleTypes[m.typeId], r.value)
  {
    if m.typeId !in moduleTypes then Failure(UnknownType(moduleId, m.typeId))
    else
      var t := moduleTypes[m.typeId];
      var withFields := m.(
        repository := if t.repository.Some? then t.repository else m.repository,
        headerFile := Some(t.headerFile),
        className := Some(t.className),
        dependencies := if t.dependencies.Some? then t.dependencies else m.dependencies);
      var args :- FillArguments(moduleId, m.arguments, t.arguments);
      Success(withFields.(
        arguments := args,
        inputs := MergePorts(t.inputs, m.inputs, ACTUATORS),
        outputs := MergePorts(t.outputs, m.outputs, SENSORS)))
  }

  /** Applies `resolve` to every entry of `items`, keyed as the entry is.
      The first failure aborts the whole call with its error; the order in
      which entries are visited is unspecified, so when several fail, the
      error is that of one of them. */
  method ResolveEach<T, U, E>(items: map<string, T>, resolve: (string, T) -> Result<U, E>)
    returns (r: Result<map<string, U>, E>)
    ensures r.Success? <==> forall id | id in items :: resolve(id, items[id]).Success?
    ensures r.Success? ==> r.value.Keys == items.Keys
    ensures r.Success? ==> forall id | id in items :: Success(r.value[id]) == resolve(id, items[id])
    ensures r.Failure? ==> exists id | id in items :: resolve(id, items[id]) == Failure(r.error)
  {
    var res: map<string, U> := map[];
    var pending := items.Keys;
    while pending != {}
      invariant pending <= items.Keys
      invariant res.Keys == items.Keys - pending
      invariant forall id | id in res :: Success(res[id]) == resolve(id, items[id])
      decreases pending
    {
      var id :| id in pending;
      var resolved := resolve(id, items[id]);
      if resolved.Failure? {
        return Failure(resolved.error);
      }
      res := res[id := resolved.value];
      pending := pending - {id};
    }
    return Success(res);
  }

  /** Synthesizes every module of `modules`, keyed by module id: each is
      resolved against `moduleTypes`, and the first module that fails to
      resolve aborts the whole call with its error. */
  method Synthesize(modules: map<string, Module>, moduleTypes: map<string, ModuleType>)
    returns (r: Result<map<string, Module>, SynthError>)
    ensures r.Success? <==> forall id | id in modules :: Resolve(id, modules[id], moduleTypes).Success?
    ensures r.Success? ==> r.value.Keys == modules.Keys
    ensures r.Success? ==> forall id | id in modules :: Success(r.value[id]) == Resolve(id, modules[id], moduleTypes)
    ensures r.Failure? ==> exists id | id in modules :: Resolve(id, modules[id], moduleTypes) == Failure(r.error)
  {
    r := ResolveEach(modules, (id, m) => Resolve(id, m, moduleTypes));
  }

  /** Overlaying a merged descriptor on the type's descriptor once more
      gives the same descriptor. */
  lemma {:induction false} MergePortIdempotent(name: string, typeInfo: Dict, instanceInfo: Dict, tag: string)
    ensures var d := MergePort(name, typeInfo, instanceInfo, tag);
      MergePort(name, typeInfo, d, tag) == d
  {
  }

  /** At most one descriptor meets `PortMerged`: the merge specification
      fixes every key and every value. */
  lemma {:induction false} PortMergedUnique(name: string, typeInfo: Dict, instanceInfo: Dict, tag: string, d1: Dict, d2: Dict)
    requires PortMerged(name, typeInfo, instanceInfo, tag, d1)
    requires PortMerged(name, typeInfo, instanceInfo, tag, d2)
    ensures d1 == d2
  {
    assert d1.Keys == d2.Keys;
    forall key | key in d1 ensures d1[key] == d2[key] {
      if key !in instanceInfo && key !in typeInfo {
        assert key == VARIABLE || key == CATEGORIES;
      }
    }
  }

  /** Merging already merged ports with the type's ports changes nothing. */
  lemma {:induction false} MergePortsIdempotent(typePorts: Ports, instancePorts: Ports, tag: string)
    ensures var r := MergePorts(typePorts, instancePorts, tag);
      MergePorts(typePorts, r, tag) == r
  {
    var r := MergePorts(typePorts, instancePorts, tag);
    var r' := MergePorts(typePorts, r, tag);
    forall name | name in typePorts ensures r'[name] == r[name] {
      var d := r[name];
      assert PortMerged(name, typePorts[name], d, tag, d);
      PortMergedUnique(name, typePorts[name], d, tag, r'[name], d);
    }
  }

  /** Resolving an already resolved module against the same types changes
      nothing: the overlay is idempotent and the arguments are complete. */
  lemma {:induction false} ResolveIdempotent(moduleId: string, m: Module, moduleTypes: map<string, ModuleType>)
    requires Resolve(moduleId, m, moduleTypes).Success?
    ensures var res := Resolve(moduleId, m, moduleTypes).value;
      Resolve(moduleId, res, moduleTypes) == Success(res)
  {
    var res := Resolve(moduleId, m, moduleTypes).value;
    var t := moduleTypes[m.typeId];
    MergePortsIdempotent(t.inputs, m.inputs, ACTUATORS);
    MergePortsIdempotent(t.outputs, m.outputs, SENSORS);
    var again := Resolve(moduleId, res, moduleTypes);
    assert again.Success?;
    assert again.value.arguments == res.arguments;
  }

  /** Whatever the instance says about one of its ports survives synthesis:
      an instance-only port is kept whole, and on a type-defined port every
      field the instance sets keeps the instance's value. */
  lemma {:induction false} InstanceSettingsSurvive(moduleId: string, m: Module, moduleTypes: map<string, ModuleType>)
    requires Resolve(moduleId, m, moduleTypes).Success?
    ensures var res := Resolve(moduleId, m, moduleTypes).value;
      && m.inputs.Keys <= res.inputs.Keys
      && m.outputs.Keys <= res.outputs.Keys
      && (forall name, key | name in m.inputs && key in m.inputs[name] :: key in res.inputs[name] && res.inputs[name][key] == m.inputs[name][key])
      && (forall name, key | name in m.outputs && key in m.outputs[name] :: key in res.outputs[name] && res.outputs[name][key] == m.outputs[name][key])
  {
  }

  /** Every port the type defines comes out of synthesis with a `variable`
      and a `categories` field; a type field the instance does not set keeps
      the type's value. */
  lemma {:induction false} TypePortsComplete(moduleId: string, m: Module, moduleTypes: map<string, ModuleType>)
    requires Resolve(moduleId, m, moduleTypes).Success?
    ensures var res := Resolve(moduleId, m, moduleTypes).value;
      var t := moduleTypes[m.typeId];
      && t.inputs.Keys <= res.inputs.Keys
      && t.outputs.Keys <= res.outputs.Keys
      && (forall name | name in t.inputs :: VARIABLE in res.inputs[name] && CATEGORIES in res.inputs[name])
      && (forall name | name in t.outputs :: VARIABLE in res.outputs[name] && CATEGORIES in res.outputs[name])
      && (forall name, key | name in t.inputs && key in t.inputs[name] && (name !in m.inputs || key !in m.inputs[name]) ::
            res.inputs[name][key] == t.inputs[name][key])
      && (forall name, key | name in t.outputs && key in t.outputs[name] && (name !in m.outputs || key !in m.outputs[name]) ::
            res.outputs[name][key] == t.outputs[name][key])
  {
  }

  /** The scenario of a type whose second argument has no default and an
      instance that supplies none: synthesis stops at position 1. */
  lemma MissingDefaultScenario()
    ensures FillArguments("m", [], [map[DEFAULT := Number(1)], map[]]) == Failure(NotEnoughArguments("m", 1, 2))
  {
    var typeArgs: seq<Dict> := [map[DEFAULT := Number(1)], map[]];
    assert DEFAULT in typeArgs[0] && DEFAULT !in typeArgs[1];
    var r := FillArguments("m", [], typeArgs);
    assert r.Failure?;
  }

  /** One supplied argument, the second taken from the type's default. */
  lemma PaddedScenario()
    ensures FillArguments("m", [Number(9)], [map[DEFAULT := Number(1)], map[DEFAULT := Number(2)]]) == Success([Number(9), Number(2)])
  {
    var typeArgs: seq<Dict> := [map[DEFAULT := Number(1)], map[DEFAULT := Number(2)]];
    assert typeArgs[1][DEFAULT] == Number(2);
    var r := FillArguments("m", [Number(9)], typeArgs);
    assert r.Success?;
    assert r.value[..1] == [Number(9)];
    assert r.value == [r.value[0], r.value[1]];
  }
}
