/** Which values the transformer accepts, and the loops by which it runs. */
module JsonTransform {
  import opened Options
  import opened JsonTypes

  /** A value has a type: said by quantifiers over members, elements and properties,
      without the order in which they are tried. */
  ghost predicate Conforms(env: Types, dir: Direction, val: Val, typ: Typ)
    requires Guarded(env)
    decreases Weight(val), val, HeadRank(env, typ), typ
  {
    match typ
    case Any => true
    case NullType => val == Null
    case Never => false
    case Ref(name) => Conforms(env, dir, val, AfterReference(Resolve(env, name)))
    case Enum(cases) => exists c :: c in cases && val == Str(c)
    case Union(members) => exists m :: m in members && (MemberRank(env, members, m); Conforms(env, dir, val, m))
    case ArrayOf(element) => val.Arr? && forall i :: 0 <= i < |val.items| ==> Conforms(env, dir, val.items[i], element)
    case ObjectOf(props, additional) =>
      && IsObject(val)
      && (forall key :: key in PropTable(dir, props) ==>
        Conforms(env, dir, Field(val, key), PropTable(dir, props)[key].typ))
      && (forall key :: key in Own(val) && key !in PropTable(dir, props) ==>
        Conforms(env, dir, Own(val)[key], additional))
    case DateType => !val.Num? && (val == Null || env.dateOf(val).Some?)
    case Primitive(kind) => TypeOf(val) == kind
  }

  lemma {:induction false} MemberRank(env: Types, members: seq<Typ>, m: Typ)
    requires m in members
    ensures HeadRank(env, m) <= HeadRankAll(env, members)
  {
    if m != members[0] { MemberRank(env, members[1..], m); }
  }

  /** The transformer succeeds exactly on the values that have the type. */
  lemma {:induction false} TransformAcceptsExactly(env: Types, dir: Direction, val: Val, typ: Typ)
    requires Guarded(env)
    ensures Transform(env, dir, val, typ).Success? <==> Conforms(env, dir, val, typ)
    decreases Weight(val), val, HeadRank(env, typ), typ, 1
  {
    hide Transform, Conforms;
    match typ
    case Any | NullType | Never | DateType | Primitive(_) | Enum(_) => ScalarAcceptsExactly(env, dir, val, typ);
    case Ref(name) =>
      ReferenceStep(env, dir, val, name);
      TransformAcceptsExactly(env, dir, val, AfterReference(Resolve(env, name)));
    case Union(members) =>
      UnionStep(env, dir, val, members);
      UnionAcceptsExactly(env, dir, val, members);
    case ArrayOf(element) =>
      if val.Arr? {
        forall i | 0 <= i < |val.items|
          ensures Transform(env, dir, val.items[i], element).Success? <==> Conforms(env, dir, val.items[i], element)
        {
          TransformAcceptsExactly(env, dir, val.items[i], element);
        }
      }
      ArrayStep(env, dir, val, element);
    case ObjectOf(props, additional) =>
      if IsObject(val) {
        ObjectAcceptsExactly(env, dir, val, props, additional);
      } else {
        NotAnObject(env, dir, val, props, additional);
      }
  }

  lemma ScalarAcceptsExactly(env: Types, dir: Direction, val: Val, typ: Typ)
    requires Guarded(env) && !typ.Ref? && !typ.Union? && !typ.ArrayOf? && !typ.ObjectOf?
    ensures Transform(env, dir, val, typ).Success? <==> Conforms(env, dir, val, typ)
  {
  }

  lemma ReferenceStep(env: Types, dir: Direction, val: Val, name: string)
    requires Guarded(env)
    ensures var target := AfterReference(Resolve(env, name));
      Transform(env, dir, val, Ref(name)) == Transform(env, dir, val, target)
      && (Conforms(env, dir, val, Ref(name)) <==> Conforms(env, dir, val, target))
  {
    hide Resolve, AfterReference;
  }

  lemma UnionStep(env: Types, dir: Direction, val: Val, members: seq<Typ>)
    requires Guarded(env)
    ensures Transform(env, dir, val, Union(members)) == TransformUnion(env, dir, val, members)
    ensures Conforms(env, dir, val, Union(members)) <==> exists m :: m in members && Conforms(env, dir, val, m)
  {
    hide TransformUnion;
  }

  lemma ArrayStep(env: Types, dir: Direction, val: Val, element: Typ)
    requires Guarded(env)
    ensures Transform(env, dir, val, ArrayOf(element)).Success? <==>
      val.Arr? && forall i :: 0 <= i < |val.items| ==> Transform(env, dir, val.items[i], element).Success?
    ensures Conforms(env, dir, val, ArrayOf(element)) <==>
      val.Arr? && forall i :: 0 <= i < |val.items| ==> Conforms(env, dir, val.items[i], element)
  {
  }

  /** Object types take objects and dates, of which the latter have no properties. */
  lemma ObjectsAccepted(env: Types, dir: Direction, val: Val)
    requires Guarded(env)
    ensures Transform(env, dir, val, ObjectOf([], Any)).Success? <==> val.Obj? || val.Date?
    ensures val.Obj? ==> Transform(env, dir, val, ObjectOf([], Any)) == Success(val)
    ensures val.Date? ==> Transform(env, dir, val, ObjectOf([], Any)) == Success(Obj(map[]))
  {
    hide Transform, TransformTable, TransformOthers, PropTable, TableKeys, Rename;
    if IsObject(val) {
      NoTable(dir);
      TransformObjectWhen(env, dir, val, [], Any);
      TransformTableWhen(env, dir, val, []);
      TransformOthersWhen(env, dir, val, [], Any);
      forall key | key in Own(val) ensures Transform(env, dir, Own(val)[key], Any) == Success(Own(val)[key]) {
        ScalarAccepts(env, dir, Own(val)[key]);
      }
      TransformObjectGives(env, dir, val, [], Any, map[], Own(val));
      assert Rename([], map[], map[]) + Own(val) == Own(val);
    } else {
      NotAnObject(env, dir, val, [], Any);
    }
  }

  lemma NoTable(dir: Direction)
    ensures PropTable(dir, []) == map[] && TableKeys(dir, []) == [] && Rename([], map[], map[]) == map[]
  {
  }

  lemma NotAnObject(env: Types, dir: Direction, val: Val, props: seq<Prop>, additional: Typ)
    requires Guarded(env) && !IsObject(val)
    ensures Transform(env, dir, val, ObjectOf(props, additional)).Failure?
    ensures !Conforms(env, dir, val, ObjectOf(props, additional))
  {
  }

  /** What the primitive types accept, told by the kinds of values; null, arrays, objects and dates are objects. */
  lemma PrimitiveAccepts(env: Types, dir: Direction, val: Val)
    requires Guarded(env)
    ensures Transform(env, dir, val, Primitive("number")) == if val.Num? then Success(val) else Failure
    ensures Transform(env, dir, val, Primitive("string")) == if val.Str? then Success(val) else Failure
    ensures Transform(env, dir, val, Primitive("boolean")) == if val.Bool? then Success(val) else Failure
    ensures Transform(env, dir, val, Primitive("undefined")) == if val.Undefined? then Success(val) else Failure
    ensures Transform(env, dir, val, Primitive("object")) ==
      if val.Null? || val.Arr? || val.Obj? || val.Date? then Success(val) else Failure
  {
  }

  /** The other types without parts; a value that passes is returned as it is, but for dates. */
  lemma ScalarAccepts(env: Types, dir: Direction, val: Val)
    requires Guarded(env)
    ensures Transform(env, dir, val, Any) == Success(val)
    ensures Transform(env, dir, val, NullType) == if val.Null? then Success(Null) else Failure
    ensures Transform(env, dir, val, Never) == Failure
    ensures forall cases ::
      Transform(env, dir, val, Enum(cases)).Success? <==> exists c :: c in cases && val == Str(c)
    ensures val.Null? ==> Transform(env, dir, val, DateType) == Success(Null)
    ensures val.Num? ==> Transform(env, dir, val, DateType) == Failure
    ensures !val.Null? && !val.Num? && env.dateOf(val).None? ==> Transform(env, dir, val, DateType) == Failure
    ensures !val.Null? && !val.Num? && env.dateOf(val).Some? ==>
      Transform(env, dir, val, DateType) == Success(Date(env.dateOf(val).value))
  {
  }

  /** A name for any, null or false is taken as a sample value, and a missing name as undefined. */
  lemma NamedSpecials(env: Types, dir: Direction, val: Val, name: string)
    requires Guarded(env)
    ensures name !in env.named ==> (Transform(env, dir, val, Ref(name)).Success? <==> val.Undefined?)
    ensures name in env.named && env.named[name] == Any ==> (Transform(env, dir, val, Ref(name)).Success? <==> val.Str?)
    ensures name in env.named && env.named[name] == NullType ==> Transform(env, dir, val, Ref(name)).Failure?
    ensures name in env.named && env.named[name] == Never ==>
      (Transform(env, dir, val, Ref(name)).Success? <==> val.Bool?)
  {
    hide Transform, Guarded;
    ReferenceStep(env, dir, val, name);
    PrimitiveAccepts(env, dir, val);
    NothingInUnion(env, dir, val);
  }

  lemma NothingInUnion(env: Types, dir: Direction, val: Val)
    requires Guarded(env)
    ensures Transform(env, dir, val, Union([])).Failure?
  {
  }

  lemma {:induction false} UnionAcceptsExactly(env: Types, dir: Direction, val: Val, members: seq<Typ>)
    requires Guarded(env)
    ensures TransformUnion(env, dir, val, members).Success? <==> exists m :: m in members && Conforms(env, dir, val, m)
    decreases Weight(val), val, HeadRankAll(env, members), members, 0
  {
    if members != [] {
      TransformAcceptsExactly(env, dir, val, members[0]);
      UnionAcceptsExactly(env, dir, val, members[1..]);
      assert members == [members[0]] + members[1..];
    }
  }

  lemma {:induction false} ObjectAcceptsExactly(env: Types, dir: Direction, val: Val, props: seq<Prop>, additional: Typ)
    requires Guarded(env) && IsObject(val)
    ensures Transform(env, dir, val, ObjectOf(props, additional)).Success?
      <==> Conforms(env, dir, val, ObjectOf(props, additional))
    decreases Weight(val), val, HeadRank(env, ObjectOf(props, additional)), ObjectOf(props, additional), 0
  {
    hide PropTable, Rename, TableKeys, Own, Field;
    var table := PropTable(dir, props);
    forall key | key in table
      ensures Transform(env, dir, Field(val, key), table[key].typ).Success?
        <==> Conforms(env, dir, Field(val, key), table[key].typ)
    {
      FieldIsSmaller(val, key);
      TransformAcceptsExactly(env, dir, Field(val, key), table[key].typ);
    }
    forall key | key in Own(val)
      ensures Transform(env, dir, Own(val)[key], additional).Success? <==> Conforms(env, dir, Own(val)[key], additional)
    {
      OwnIsSmaller(val, key);
      TransformAcceptsExactly(env, dir, Own(val)[key], additional);
    }
    TransformObjectWhen(env, dir, val, props, additional);
    TransformTableWhen(env, dir, val, props);
    TransformOthersWhen(env, dir, val, props, additional);
    ConformsObjectWhen(env, dir, val, props, additional);
  }

  lemma FieldIsSmaller(val: Val, key: string)
    requires IsObject(val)
    ensures Field(val, key).Undefined? || Field(val, key) < val
  {
  }

  lemma OwnIsSmaller(val: Val, key: string)
    requires IsObject(val) && key in Own(val)
    ensures Own(val)[key] < val && Weight(Own(val)[key]) <= Weight(val)
  {
  }

  lemma TransformTableWhen(env: Types, dir: Direction, val: Val, props: seq<Prop>)
    requires Guarded(env) && IsObject(val)
    ensures TransformTable(env, dir, val, props).Success? <==>
      forall key :: key in PropTable(dir, props) ==>
        Transform(env, dir, Field(val, key), PropTable(dir, props)[key].typ).Success?
    ensures TransformTable(env, dir, val, props).Success? ==> forall key :: key in PropTable(dir, props) ==>
      Transform(env, dir, Field(val, key), PropTable(dir, props)[key].typ)
        == Success(TransformTable(env, dir, val, props).value[key])
  {
    hide PropTable, Own, Field;
  }

  lemma TransformOthersWhen(env: Types, dir: Direction, val: Val, props: seq<Prop>, additional: Typ)
    requires Guarded(env) && IsObject(val)
    ensures TransformOthers(env, dir, val, props, additional).Success? <==>
      forall key :: key in Own(val) && key !in PropTable(dir, props) ==>
        Transform(env, dir, Own(val)[key], additional).Success?
    ensures TransformOthers(env, dir, val, props, additional).Success? ==>
      forall key :: key in Own(val) && key !in PropTable(dir, props) ==>
        Transform(env, dir, Own(val)[key], additional)
          == Success(TransformOthers(env, dir, val, props, additional).value[key])
  {
    hide PropTable, Own, Field;
  }

  lemma TransformObjectWhen(env: Types, dir: Direction, val: Val, props: seq<Prop>, additional: Typ)
    requires Guarded(env) && IsObject(val)
    ensures Transform(env, dir, val, ObjectOf(props, additional)).Success?
      <==> TransformTable(env, dir, val, props).Success? && TransformOthers(env, dir, val, props, additional).Success?
  {
    hide PropTable, Own, Field, TransformTable, TransformOthers, Rename, TableKeys;
  }

  lemma ConformsObjectWhen(env: Types, dir: Direction, val: Val, props: seq<Prop>, additional: Typ)
    requires Guarded(env) && IsObject(val)
    ensures Conforms(env, dir, val, ObjectOf(props, additional)) <==>
      && (forall key :: key in PropTable(dir, props) ==>
        Conforms(env, dir, Field(val, key), PropTable(dir, props)[key].typ))
      && (forall key :: key in Own(val) && key !in PropTable(dir, props) ==>
        Conforms(env, dir, Own(val)[key], additional))
  {
    hide PropTable, Own, Field;
  }

  /** What an object becomes, told by the transformed values of its properties. */
  lemma TransformObjectGives(env: Types, dir: Direction, val: Val, props: seq<Prop>, additional: Typ,
      values: map<string, Val>, extra: map<string, Val>)
    requires Guarded(env) && IsObject(val)
    requires values.Keys == PropTable(dir, props).Keys && extra.Keys == Own(val).Keys - PropTable(dir, props).Keys
    requires forall key :: key in values ==>
      Transform(env, dir, Field(val, key), PropTable(dir, props)[key].typ) == Success(values[key])
    requires forall key :: key in extra ==> Transform(env, dir, Own(val)[key], additional) == Success(extra[key])
    ensures Transform(env, dir, val, ObjectOf(props, additional))
      == Success(Obj(Rename(TableKeys(dir, props), PropTable(dir, props), values) + extra))
  {
    hide *;
    TransformTableIs(env, dir, val, props, values);
    TransformOthersIs(env, dir, val, props, additional, extra);
    TransformObjectIs(env, dir, val, props, additional);
  }

  lemma TransformTableIs(env: Types, dir: Direction, val: Val, props: seq<Prop>, values: map<string, Val>)
    requires Guarded(env) && IsObject(val) && values.Keys == PropTable(dir, props).Keys
    requires forall key :: key in values ==>
      Transform(env, dir, Field(val, key), PropTable(dir, props)[key].typ) == Success(values[key])
    ensures TransformTable(env, dir, val, props) == Success(values)
  {
    hide *;
    TransformTableWhen(env, dir, val, props);
    var table := TransformTable(env, dir, val, props);
    forall key | key in values ensures key in table.value && table.value[key] == values[key] {}
    assert table.value == values;
  }

  lemma TransformOthersIs(env: Types, dir: Direction, val: Val, props: seq<Prop>, additional: Typ,
      extra: map<string, Val>)
    requires Guarded(env) && IsObject(val) && extra.Keys == Own(val).Keys - PropTable(dir, props).Keys
    requires forall key :: key in extra ==> Transform(env, dir, Own(val)[key], additional) == Success(extra[key])
    ensures TransformOthers(env, dir, val, props, additional) == Success(extra)
  {
    hide *;
    TransformOthersWhen(env, dir, val, props, additional);
    var others := TransformOthers(env, dir, val, props, additional);
    forall key | key in extra ensures key in others.value && others.value[key] == extra[key] {}
    assert others.value == extra;
  }

  lemma TransformObjectIs(env: Types, dir: Direction, val: Val, props: seq<Prop>, additional: Typ)
    requires Guarded(env) && IsObject(val)
    requires TransformTable(env, dir, val, props).Success? && TransformOthers(env, dir, val, props, additional).Success?
    ensures Transform(env, dir, val, ObjectOf(props, additional))
      == Success(Obj(Rename(TableKeys(dir, props), PropTable(dir, props), TransformTable(env, dir, val, props).value)
                     + TransformOthers(env, dir, val, props, additional).value))
  {
    hide PropTable, Own, Field, TransformTable, TransformOthers, Rename, TableKeys;
  }

  lemma TransformArrayGives(env: Types, dir: Direction, val: Val, element: Typ, items: seq<Val>)
    requires Guarded(env) && val.Arr? && |items| == |val.items|
    requires forall k :: 0 <= k < |items| ==> Transform(env, dir, val.items[k], element) == Success(items[k])
    ensures Transform(env, dir, val, ArrayOf(element)) == Success(Arr(items))
  {
    assert items ==
      seq(|val.items|, i requires 0 <= i < |val.items| => Transform(env, dir, val.items[i], element).value);
  }

  // ----- the loops of the program -----

  /** Follows references in a loop; the value is unaffected. */
  method FollowReferences(env: Types, name: string) returns (typ: Typ)
    requires Guarded(env)
    ensures typ == Resolve(env, name)
  {
    typ := Ref(name);
    while typ.Ref?
      invariant HeadRank(env, typ) <= RankOfName(env, name) + 1
      invariant typ.Ref? ==> Resolve(env, typ.name) == Resolve(env, name)
      invariant !typ.Ref? ==> typ == Resolve(env, name)
      decreases if typ.Ref? then RankOfName(env, typ.name) + 1 else 0
    {
      typ := if typ.name in env.named then env.named[typ.name] else Primitive("undefined");
    }
  }

  method RunTransform(env: Types, dir: Direction, val: Val, typ: Typ) returns (r: Result<Val>)
    requires Guarded(env)
    ensures r == Transform(env, dir, val, typ)
    decreases Weight(val), val, HeadRank(env, typ), typ, 1
  {
    match typ
    case Any => return Success(val);
    case NullType => return if val.Null? then Success(val) else Failure;
    case Never => return Failure;
    case Ref(name) =>
      var resolved := FollowReferences(env, name);
      r := RunTransform(env, dir, val, AfterReference(resolved));
    case Enum(cases) => return if val.Str? && val.s in cases then Success(val) else Failure;
    case Union(members) => r := RunTransformUnion(env, dir, val, members);
    case ArrayOf(element) => r := RunTransformArray(env, dir, val, element);
    case ObjectOf(props, additional) => r := RunTransformObject(env, dir, val, props, additional);
    case DateType => return Transform(env, dir, val, DateType);
    case Primitive(kind) => return if TypeOf(val) == kind then Success(val) else Failure;
  }

  /** Tries the members in order; a failure of one is swallowed. */
  method RunTransformUnion(env: Types, dir: Direction, val: Val, typs: seq<Typ>) returns (r: Result<Val>)
    requires Guarded(env)
    ensures r == TransformUnion(env, dir, val, typs)
    decreases Weight(val), val, HeadRankAll(env, typs), typs, 0
  {
    for i := 0 to |typs|
      invariant TransformUnion(env, dir, val, typs[i..]) == TransformUnion(env, dir, val, typs)
    {
      assert typs[i..][0] == typs[i] && typs[i..][1..] == typs[i + 1..];
      MemberRank(env, typs, typs[i]);
      r := RunTransform(env, dir, val, typs[i]);
      if r.Success? { return; }
    }
    r := Failure;
  }

  method RunTransformArray(env: Types, dir: Direction, val: Val, element: Typ) returns (r: Result<Val>)
    requires Guarded(env)
    ensures r == Transform(env, dir, val, ArrayOf(element))
    decreases Weight(val), val, HeadRank(env, ArrayOf(element)), ArrayOf(element), 0
  {
    if !val.Arr? { return Failure; }
    var items: seq<Val> := [];
    for i := 0 to |val.items|
      invariant |items| == i
      invariant forall k :: 0 <= k < i ==> Transform(env, dir, val.items[k], element) == Success(items[k])
    {
      var el := RunTransform(env, dir, val.items[i], element);
      if el.Failure? { return Failure; }
      items := items + [el.value];
    }
    TransformArrayGives(env, dir, val, element, items);
    r := Success(Arr(items));
  }

  /** Fills the result property by property: first those of the type, then the others of the value. */
  method RunTransformObject(env: Types, dir: Direction, val: Val, props: seq<Prop>,
      additional: Typ) returns (r: Result<Val>)
    requires Guarded(env)
    ensures r == Transform(env, dir, val, ObjectOf(props, additional))
    decreases Weight(val), val, HeadRank(env, ObjectOf(props, additional)), ObjectOf(props, additional), 0
  {
    hide PropTable, TableKeys, Own, Field, Transform, TransformTable, TransformOthers, Rename;
    if !IsObject(val) {
      NotAnObject(env, dir, val, props, additional);
      return Failure;
    }
    TransformObjectWhen(env, dir, val, props, additional);
    var result: map<string, Val>;
    var ok: bool;
    ghost var values, extra;
    ok, result, values := FillDeclared(env, dir, val, props);
    if !ok { return Failure; }
    ok, result, extra := FillOthers(env, dir, val, props, additional, result);
    if !ok { return Failure; }
    TransformObjectGives(env, dir, val, props, additional, values, extra);
    r := Success(Obj(result));
  }

  method FillDeclared(env: Types, dir: Direction, val: Val, props: seq<Prop>)
    returns (ok: bool, result: map<string, Val>, ghost values: map<string, Val>)
    requires Guarded(env) && IsObject(val)
    ensures ok <==> TransformTable(env, dir, val, props).Success?
    ensures ok ==>
      && values.Keys == PropTable(dir, props).Keys
      && result == Rename(TableKeys(dir, props), PropTable(dir, props), values)
    ensures ok ==> forall key :: key in values ==>
      Transform(env, dir, Field(val, key), PropTable(dir, props)[key].typ) == Success(values[key])
    decreases Weight(val), val, 0, props, 0
  {
    hide PropTable, TableKeys, Own, Field, Transform, TransformTable, Rename;
    TransformTableWhen(env, dir, val, props);
    RenameNone(PropTable(dir, props));
    var table, keys := PropTable(dir, props), TableKeys(dir, props);
    ok, result, values := true, map[], map[];
    for i := 0 to |keys|
      invariant ok && forall key :: key in keys[..i] <==> key in values
      invariant forall key :: key in values ==> key in table
      invariant forall key :: key in values ==>
        Transform(env, dir, Field(val, key), table[key].typ) == Success(values[key])
      invariant result == Rename(keys[..i], table, values)
    {
      var key := keys[i];
      assert keys[i] in keys && keys[..i + 1] == keys[..i] + [key];
      FieldIsSmaller(val, key);
      var v := RunTransform(env, dir, Field(val, key), table[key].typ);
      if v.Failure? {
        ok := false;
        return;
      }
      RenameNext(keys[..i], key, table, values, values[key := v.value]);
      values := values[key := v.value];
      result := result[table[key].key := v.value];
    }
    assert keys[..|keys|] == keys;
  }

  lemma AddedTo(start: map<string, Val>, extra: map<string, Val>, key: string, v: Val)
    ensures (start + extra)[key := v] == start + extra[key := v]
  {
  }

  method FillOthers(env: Types, dir: Direction, val: Val, props: seq<Prop>, additional: Typ, start: map<string, Val>)
    returns (ok: bool, result: map<string, Val>, ghost extra: map<string, Val>)
    requires Guarded(env) && IsObject(val)
    ensures ok <==> TransformOthers(env, dir, val, props, additional).Success?
    ensures ok ==> extra.Keys == Own(val).Keys - PropTable(dir, props).Keys && result == start + extra
    ensures ok ==> forall key :: key in extra ==> Transform(env, dir, Own(val)[key], additional) == Success(extra[key])
    decreases Weight(val), val, 0, props, 0
  {
    hide PropTable, Own, Transform, TransformOthers, HeadRank, Guarded, IsObject, Weight;
    TransformOthersWhen(env, dir, val, props, additional);
    var left := Own(val).Keys - PropTable(dir, props).Keys;
    ok, result, extra := true, start, map[];
    while left != {}
      invariant ok && left <= Own(val).Keys - PropTable(dir, props).Keys
      invariant extra.Keys == Own(val).Keys - PropTable(dir, props).Keys - left
      invariant forall key :: key in extra ==> Transform(env, dir, Own(val)[key], additional) == Success(extra[key])
      invariant result == start + extra
      decreases left
    {
      var key :| key in left;
      OwnIsSmaller(val, key);
      var v := RunTransform(env, dir, Own(val)[key], additional);
      if v.Failure? {
        ok := false;
        return;
      }
      AddedTo(start, extra, key, v.value);
      extra := extra[key := v.value];
      result := result[key := v.value];
      left := left - {key};
    }
  }

  lemma RenameNone(table: map<string, Target>)
    ensures Rename([], table, map[]) == map[]
  {
  }

  lemma RenameNext(keys: seq<string>, key: string, table: map<string, Target>, values: map<string, Val>,
      next: map<string, Val>)
    requires (forall k :: k in keys ==> k in table && k in values) && key in table
    requires key in next && next == values[key := next[key]] && (key in values ==> values[key] == next[key])
    ensures Rename(keys + [key], table, next) == Rename(keys, table, values)[table[key].key := next[key]]
  {
    assert (keys + [key])[..|keys|] == keys;
    RenameAgrees(keys, table, values, next);
  }

  lemma {:induction false} RenameAgrees(keys: seq<string>, table: map<string, Target>, a: map<string, Val>,
      b: map<string, Val>)
    requires forall key :: key in keys ==> key in table && key in a && key in b && a[key] == b[key]
    ensures Rename(keys, table, a) == Rename(keys, table, b)
  {
    if keys != [] { RenameAgrees(keys[..|keys| - 1], table, a, b); }
  }
}
