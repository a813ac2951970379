/** JavaScript values and the runtime types that check and rename them. */
module JsonTypes {
  import opened Options

  datatype Val =
    | Undefined
    | Null
    | Bool(b: bool)
    | Num(n: real)
    | Str(s: string)
    | Arr(items: seq<Val>)
    | Obj(fields: map<string, Val>)
    | Date(time: int)

  function TypeOf(v: Val): string {
    match v
    case Undefined => "undefined"
    case Bool(_) => "boolean"
    case Num(_) => "number"
    case Str(_) => "string"
    case Null | Arr(_) | Obj(_) | Date(_) => "object"
  }

  datatype Prop = Prop(json: string, js: string, typ: Typ)

  datatype Typ =
    | Any
    | NullType
    | Never
    | Ref(name: string)
    | Enum(cases: seq<string>)
    | Union(members: seq<Typ>)
    | ArrayOf(element: Typ)
    | ObjectOf(props: seq<Prop>, additional: Typ)
    | DateType
    | Primitive(kind: string)

  /** The named types, what the Date constructor makes of a value, and for each name how many names
      may follow it before the value is taken apart. */
  datatype Types = Types(named: map<string, Typ>, dateOf: Val -> Option<int>, rank: map<string, nat>)

  function RankOfName(env: Types, name: string): nat {
    if name in env.rank then env.rank[name] else 0
  }

  /** How many names a value can pass at this type before an object or array is entered. */
  function HeadRank(env: Types, typ: Typ): nat
    decreases typ, 1
  {
    match typ
    case Ref(name) => RankOfName(env, name) + 1
    case Union(members) => HeadRankAll(env, members)
    case _ => 0
  }

  function HeadRankAll(env: Types, members: seq<Typ>): nat
    decreases members, 0
  {
    if members == [] then 0
    else
      var first, rest := HeadRank(env, members[0]), HeadRankAll(env, members[1..]);
      if first > rest then first else rest
  }

  /** No name leads back to itself through names and unions alone; a type may still contain itself
      below an object or array. */
  ghost predicate Guarded(env: Types) {
    forall name :: name in env.named ==> HeadRank(env, env.named[name]) <= RankOfName(env, name)
  }

  /** A chain of references is followed until it ends; a missing name ends it as undefined. */
  function Resolve(env: Types, name: string): (typ: Typ)
    requires Guarded(env)
    ensures !typ.Ref? && HeadRank(env, typ) <= RankOfName(env, name)
    decreases RankOfName(env, name)
  {
    if name !in env.named then Primitive("undefined")
    else
      var typ := env.named[name];
      if typ.Ref? then Resolve(env, typ.name) else typ
  }

  /** The tests for 'any', null and false come before references are followed, so a name for one of them
      is taken as a sample value instead: a string, an error, a boolean. */
  function AfterReference(typ: Typ): (r: Typ) {
    match typ
    case Any => Primitive("string")
    case NullType => Union([])
    case Never => Primitive("boolean")
    case _ => typ
  }

  datatype Direction = Casting | Uncasting

  datatype Target = Target(key: string, typ: Typ)

  function From(dir: Direction, p: Prop): string {
    if dir.Casting? then p.json else p.js
  }

  function To(dir: Direction, p: Prop): string {
    if dir.Casting? then p.js else p.json
  }

  /** The lookup table from property names to their renamed targets; a later property of one name replaces it. */
  function PropTable(dir: Direction, props: seq<Prop>): map<string, Target> {
    if props == [] then map[]
    else
      var last := props[|props| - 1];
      PropTable(dir, props[..|props| - 1])[From(dir, last) := Target(To(dir, last), last.typ)]
  }

  lemma {:induction false} TableEntry(dir: Direction, props: seq<Prop>, key: string) returns (p: Prop)
    requires key in PropTable(dir, props)
    ensures p in props && From(dir, p) == key && PropTable(dir, props)[key] == Target(To(dir, p), p.typ)
  {
    var last := props[|props| - 1];
    if key == From(dir, last) {
      p := last;
    } else {
      p := TableEntry(dir, props[..|props| - 1], key);
    }
  }

  lemma {:induction false} TableHas(dir: Direction, props: seq<Prop>, p: Prop)
    requires p in props
    ensures From(dir, p) in PropTable(dir, props)
  {
    var init, last := props[..|props| - 1], props[|props| - 1];
    assert props == init + [last];
    if p != last { TableHas(dir, init, p); }
  }

  /** The keys of the table in the order they were first set. */
  function TableKeys(dir: Direction, props: seq<Prop>): (keys: seq<string>)
    ensures forall key :: key in keys <==> key in PropTable(dir, props)
  {
    if props == [] then []
    else
      var before, key := TableKeys(dir, props[..|props| - 1]), From(dir, props[|props| - 1]);
      if key in before then before else before + [key]
  }

  predicate IsObject(v: Val) {
    v.Obj? || v.Date?
  }

  /** The own properties; a Date has none. */
  function Own(v: Val): map<string, Val>
    requires IsObject(v)
  {
    if v.Obj? then v.fields else map[]
  }

  function Field(v: Val, key: string): Val
    requires IsObject(v)
  {
    if key in Own(v) then Own(v)[key] else Undefined
  }

  /** Each transformed property under its target name; a later one of the same name replaces an earlier. */
  function Rename(keys: seq<string>, table: map<string, Target>, values: map<string, Val>): map<string, Val>
    requires forall key :: key in keys ==> key in table && key in values
  {
    if keys == [] then map[]
    else
      var last := keys[|keys| - 1];
      Rename(keys[..|keys| - 1], table, values)[table[last].key := values[last]]
  }

  function Weight(v: Val): nat {
    if v.Undefined? then 0 else 1
  }

  function Transform(env: Types, dir: Direction, val: Val, typ: Typ): Result<Val>
    requires Guarded(env)
    decreases Weight(val), val, HeadRank(env, typ), typ, 1
  {
    match typ
    case Any => Success(val)
    case NullType => if val.Null? then Success(val) else Failure
    case Never => Failure
    case Ref(name) => Transform(env, dir, val, AfterReference(Resolve(env, name)))
    case Enum(cases) => if val.Str? && val.s in cases then Success(val) else Failure
    case Union(members) => TransformUnion(env, dir, val, members)
    case ArrayOf(element) =>
      if !val.Arr? || exists i :: 0 <= i < |val.items| && Transform(env, dir, val.items[i], element).Failure?
      then Failure
      else
        var items :=
          seq(|val.items|, i requires 0 <= i < |val.items| => Transform(env, dir, val.items[i], element).value);
        Success(Arr(items))
    case ObjectOf(props, additional) =>
      if !IsObject(val) then Failure
      else
        var values := TransformTable(env, dir, val, props);
        var extra := TransformOthers(env, dir, val, props, additional);
        if values.Failure? || extra.Failure? then Failure
        else Success(Obj(Rename(TableKeys(dir, props), PropTable(dir, props), values.value) + extra.value))
    case DateType =>
      if val.Num? then Failure
      else if val.Null? then Success(Null)
      else if env.dateOf(val).None? then Failure
      else Success(Date(env.dateOf(val).value))
    case Primitive(kind) => if TypeOf(val) == kind then Success(val) else Failure
  }

  /** The first member that accepts the value decides. */
  function TransformUnion(env: Types, dir: Direction, val: Val, members: seq<Typ>): Result<Val>
    requires Guarded(env)
    decreases Weight(val), val, HeadRankAll(env, members), members, 0
  {
    if members == [] then Failure
    else
      var first := Transform(env, dir, val, members[0]);
      if first.Success? then first else TransformUnion(env, dir, val, members[1..])
  }

  /** The values of the declared properties, under the names they have in the value. */
  function TransformTable(env: Types, dir: Direction, val: Val, props: seq<Prop>): (r: Result<map<string, Val>>)
    requires Guarded(env) && IsObject(val)
    ensures r.Success? ==> r.value.Keys == PropTable(dir, props).Keys
    decreases Weight(val), val, 0, props, 0
  {
    var table := PropTable(dir, props);
    if exists key :: key in table && Transform(env, dir, Field(val, key), table[key].typ).Failure? then Failure
    else Success(map key | key in table :: Transform(env, dir, Field(val, key), table[key].typ).value)
  }

  /** The values of all other properties. */
  function TransformOthers(env: Types, dir: Direction, val: Val, props: seq<Prop>,
      additional: Typ): (r: Result<map<string, Val>>)
    requires Guarded(env) && IsObject(val)
    ensures r.Success? ==> r.value.Keys == Own(val).Keys - PropTable(dir, props).Keys
    decreases Weight(val), val, 0, props, 0
  {
    var table := PropTable(dir, props);
    if exists key :: key in Own(val) && key !in table && Transform(env, dir, Own(val)[key], additional).Failure?
    then Failure
    else Success(map key | key in Own(val) && key !in table :: Transform(env, dir, Own(val)[key], additional).value)
  }
}
