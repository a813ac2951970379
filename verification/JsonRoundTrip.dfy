/** When uncast undoes cast. */
module JsonRoundTrip {
  import opened Options
  import opened JsonTypes
  import opened JsonTransform

  function Cast(env: Types, val: Val, typ: Typ): Result<Val>
    requires Guarded(env)
  {
    Transform(env, Casting, val, typ)
  }

  function Uncast(env: Types, val: Val, typ: Typ): Result<Val>
    requires Guarded(env)
  {
    Transform(env, Uncasting, val, typ)
  }

  // ----- the same value, but for properties that are undefined -----

  /** w is v, except that at any depth properties v lacks may be there as undefined. */
  ghost predicate Fills(v: Val, w: Val)
    decreases v
  {
    match v
    case Arr(xs) => w.Arr? && |w.items| == |xs| && forall i :: 0 <= i < |xs| ==> Fills(xs[i], w.items[i])
    case Obj(m) =>
      && w.Obj? && m.Keys <= w.fields.Keys
      && forall key :: key in w.fields ==> if key in m then Fills(m[key], w.fields[key]) else w.fields[key] == Undefined
    case _ => w == v
  }

  /** A value as JSON.stringify shows it: properties that are undefined are left out. */
  function Shown(v: Val): Val {
    match v
    case Arr(xs) => Arr(seq(|xs|, i requires 0 <= i < |xs| => Shown(xs[i])))
    case Obj(m) => Obj(map key | key in m && !m[key].Undefined? :: Shown(m[key]))
    case _ => v
  }

  /** A value that JSON.parse can return. */
  predicate IsJson(v: Val) {
    match v
    case Undefined | Date(_) => false
    case Arr(xs) => forall i :: 0 <= i < |xs| ==> IsJson(xs[i])
    case Obj(m) => forall key :: key in m ==> IsJson(m[key])
    case _ => true
  }

  /** No Date object inside. */
  predicate Dateless(v: Val) {
    match v
    case Date(_) => false
    case Arr(xs) => forall i :: 0 <= i < |xs| ==> Dateless(xs[i])
    case Obj(m) => forall key :: key in m ==> Dateless(m[key])
    case _ => true
  }

  lemma {:induction false} JsonIsDateless(v: Val)
    requires IsJson(v)
    ensures Dateless(v)
  {
    match v
    case Arr(xs) => forall i | 0 <= i < |xs| ensures Dateless(xs[i]) { JsonIsDateless(xs[i]); }
    case Obj(m) => forall key | key in m ensures Dateless(m[key]) { JsonIsDateless(m[key]); }
    case _ =>
  }

  lemma {:induction false} FillsSelf(v: Val)
    ensures Fills(v, v)
  {
    match v
    case Arr(xs) => forall i | 0 <= i < |xs| ensures Fills(xs[i], xs[i]) { FillsSelf(xs[i]); }
    case Obj(m) => forall key | key in m ensures Fills(m[key], m[key]) { FillsSelf(m[key]); }
    case _ =>
  }

  lemma {:induction false} FillsShows(v: Val, w: Val)
    requires Fills(v, w)
    ensures Shown(v) == Shown(w)
  {
    match v
    case Arr(xs) =>
      forall i | 0 <= i < |xs| ensures Shown(xs[i]) == Shown(w.items[i]) { FillsShows(xs[i], w.items[i]); }
      assert Shown(v).items == Shown(w).items;
    case Obj(m) =>
      forall key | key in m
        ensures Shown(m[key]) == Shown(w.fields[key]) && (m[key].Undefined? <==> w.fields[key].Undefined?)
      {
        FillsShows(m[key], w.fields[key]);
      }
      assert Shown(v).fields == Shown(w).fields;
    case _ =>
  }

  lemma {:induction false} JsonShowsItself(v: Val)
    requires IsJson(v)
    ensures Shown(v) == v
  {
    match v
    case Arr(xs) =>
      forall i | 0 <= i < |xs| ensures Shown(xs[i]) == xs[i] { JsonShowsItself(xs[i]); }
      assert Shown(v).items == xs;
    case Obj(m) =>
      forall key | key in m ensures Shown(m[key]) == m[key] && !m[key].Undefined? { JsonShowsItself(m[key]); }
      assert Shown(v).fields == m;
    case _ =>
  }

  // ----- the types for which it works -----

  /** Every property keeps its name and no Date occurs, here and below the names in keep. */
  predicate KeepsNames(keep: set<string>, typ: Typ) {
    match typ
    case Any | NullType | Never | Enum(_) | Primitive(_) => true
    case DateType => false
    case Ref(name) => name in keep
    case Union(members) => forall m :: m in members ==> KeepsNames(keep, m)
    case ArrayOf(element) => KeepsNames(keep, element)
    case ObjectOf(props, additional) =>
      KeepsNames(keep, additional) && forall p :: p in props ==> p.json == p.js && KeepsNames(keep, p.typ)
  }

  predicate DistinctNames(props: seq<Prop>) {
    forall i, j :: 0 <= i < j < |props| ==> props[i].json != props[j].json && props[i].js != props[j].js
  }

  /** Properties may be renamed where names are distinct and no others are allowed;
      below a union every property keeps its name. */
  predicate Reversible(keep: set<string>, names: set<string>, typ: Typ) {
    KeepsNames(keep, typ) ||
    match typ
    case Ref(name) => name in names
    case ArrayOf(element) => Reversible(keep, names, element)
    case ObjectOf(props, additional) =>
      additional.Never? && DistinctNames(props) && forall p :: p in props ==> Reversible(keep, names, p.typ)
    case _ => false
  }

  /** The two sets of names are what they claim to be. */
  ghost predicate NamesOk(env: Types, keep: set<string>, names: set<string>) {
    && (forall n :: n in keep && n in env.named ==> KeepsNames(keep, env.named[n]))
    && (forall n :: n in names && n in env.named ==> Reversible(keep, names, env.named[n]))
  }

  lemma {:induction false} ResolveKeepsNames(env: Types, keep: set<string>, names: set<string>, name: string)
    requires Guarded(env) && NamesOk(env, keep, names) && name in keep
    ensures KeepsNames(keep, AfterReference(Resolve(env, name)))
    decreases RankOfName(env, name)
  {
    if name in env.named && env.named[name].Ref? { ResolveKeepsNames(env, keep, names, env.named[name].name); }
  }

  lemma {:induction false} ResolveReversible(env: Types, keep: set<string>, names: set<string>, name: string)
    requires Guarded(env) && NamesOk(env, keep, names) && name in names
    ensures Reversible(keep, names, AfterReference(Resolve(env, name)))
    decreases RankOfName(env, name)
  {
    if name in env.named && env.named[name].Ref? {
      if env.named[name].name in names {
        ResolveReversible(env, keep, names, env.named[name].name);
      } else {
        ResolveKeepsNames(env, keep, names, env.named[name].name);
      }
    }
  }

  // ----- types that keep names: transforming again changes nothing -----

  lemma {:induction false} SameTable(props: seq<Prop>)
    requires forall p :: p in props ==> p.json == p.js
    ensures PropTable(Casting, props) == PropTable(Uncasting, props)
    ensures TableKeys(Casting, props) == TableKeys(Uncasting, props)
    ensures forall key :: key in PropTable(Casting, props) ==> PropTable(Casting, props)[key].key == key
  {
    if props != [] {
      assert props == props[..|props| - 1] + [props[|props| - 1]];
      SameTable(props[..|props| - 1]);
    }
  }

  /** A value that lacks nothing but undefined properties has every type its filling has. */
  lemma {:induction false} ConformsUnfilled(env: Types, dir: Direction, keep: set<string>, names: set<string>,
      v: Val, w: Val, typ: Typ)
    requires Guarded(env) && NamesOk(env, keep, names) && KeepsNames(keep, typ)
    requires Fills(v, w) && Conforms(env, dir, w, typ)
    ensures Conforms(env, dir, v, typ)
    decreases Weight(v), v, HeadRank(env, typ), typ
  {
    match typ
    case Any | NullType | Never | Enum(_) | Primitive(_) =>
    case Ref(name) =>
      ResolveKeepsNames(env, keep, names, name);
      ConformsUnfilled(env, dir, keep, names, v, w, AfterReference(Resolve(env, name)));
    case Union(members) =>
      var m :| m in members && Conforms(env, dir, w, m);
      MemberRank(env, members, m);
      ConformsUnfilled(env, dir, keep, names, v, w, m);
    case ArrayOf(element) =>
      forall i | 0 <= i < |v.items| ensures Conforms(env, dir, v.items[i], element) {
        ConformsUnfilled(env, dir, keep, names, v.items[i], w.items[i], element);
      }
    case ObjectOf(props, additional) =>
      ConformsObjectWhen(env, dir, w, props, additional);
      KeptBelow(keep, dir, props, additional);
      if v.Obj? {
        forall key | key in PropTable(dir, props)
          ensures Conforms(env, dir, Field(v, key), PropTable(dir, props)[key].typ)
        {
          FieldIsSmaller(v, key);
          ConformsUnfilled(env, dir, keep, names, Field(v, key), Field(w, key), PropTable(dir, props)[key].typ);
        }
        forall key | key in Own(v) && key !in PropTable(dir, props)
          ensures Conforms(env, dir, Own(v)[key], additional)
        {
          OwnIsSmaller(v, key);
          ConformsUnfilled(env, dir, keep, names, Own(v)[key], Own(w)[key], additional);
        }
      }
      ConformsObjectWhen(env, dir, v, props, additional);
  }

  lemma KeptBelow(keep: set<string>, dir: Direction, props: seq<Prop>, additional: Typ)
    requires KeepsNames(keep, ObjectOf(props, additional))
    ensures KeepsNames(keep, additional) && forall p :: p in props ==> p.json == p.js
    ensures forall key :: key in PropTable(dir, props) ==> KeepsNames(keep, PropTable(dir, props)[key].typ)
  {
    forall key | key in PropTable(dir, props) ensures KeepsNames(keep, PropTable(dir, props)[key].typ) {
      var p := TableEntry(dir, props, key);
    }
  }

  /** Where names are kept the two directions are one. */
  lemma {:induction false} DirectionsAgree(env: Types, keep: set<string>, names: set<string>, v: Val, typ: Typ)
    requires Guarded(env) && NamesOk(env, keep, names) && KeepsNames(keep, typ)
    ensures Transform(env, Casting, v, typ) == Transform(env, Uncasting, v, typ)
    decreases Weight(v), v, HeadRank(env, typ), typ, 1
  {
    match typ
    case Any | NullType | Never | Enum(_) | Primitive(_) =>
    case Ref(name) =>
      ResolveKeepsNames(env, keep, names, name);
      DirectionsAgree(env, keep, names, v, AfterReference(Resolve(env, name)));
    case Union(members) => UnionDirectionsAgree(env, keep, names, v, members);
    case ArrayOf(element) =>
      if v.Arr? {
        forall i | 0 <= i < |v.items|
          ensures Transform(env, Casting, v.items[i], element) == Transform(env, Uncasting, v.items[i], element)
        {
          DirectionsAgree(env, keep, names, v.items[i], element);
        }
        if Transform(env, Casting, v, typ).Success? {
          TransformArrayGives(env, Uncasting, v, element, Transform(env, Casting, v, typ).value.items);
        }
      }
    case ObjectOf(props, additional) =>
      if IsObject(v) { ObjectDirectionsAgree(env, keep, names, v, props, additional); }
  }

  lemma {:induction false} UnionDirectionsAgree(env: Types, keep: set<string>, names: set<string>, v: Val,
      members: seq<Typ>)
    requires Guarded(env) && NamesOk(env, keep, names) && forall m :: m in members ==> KeepsNames(keep, m)
    ensures TransformUnion(env, Casting, v, members) == TransformUnion(env, Uncasting, v, members)
    decreases Weight(v), v, HeadRankAll(env, members), members, 0
  {
    if members != [] {
      DirectionsAgree(env, keep, names, v, members[0]);
      UnionDirectionsAgree(env, keep, names, v, members[1..]);
    }
  }

  /** A successful object transformation, taken apart into its properties. */
  lemma ObjectParts(env: Types, dir: Direction, v: Val, props: seq<Prop>, additional: Typ)
    returns (values: map<string, Val>, extra: map<string, Val>)
    requires Guarded(env) && IsObject(v) && Transform(env, dir, v, ObjectOf(props, additional)).Success?
    ensures values.Keys == PropTable(dir, props).Keys && extra.Keys == Own(v).Keys - PropTable(dir, props).Keys
    ensures forall key :: key in values ==>
      Transform(env, dir, Field(v, key), PropTable(dir, props)[key].typ) == Success(values[key])
    ensures forall key :: key in extra ==> Transform(env, dir, Own(v)[key], additional) == Success(extra[key])
    ensures Transform(env, dir, v, ObjectOf(props, additional))
      == Success(Obj(Rename(TableKeys(dir, props), PropTable(dir, props), values) + extra))
  {
    hide Transform, TransformTable, TransformOthers, Rename, TableKeys, PropTable, Own, Field;
    TransformObjectWhen(env, dir, v, props, additional);
    TransformTableWhen(env, dir, v, props);
    TransformOthersWhen(env, dir, v, props, additional);
    values, extra := TransformTable(env, dir, v, props).value, TransformOthers(env, dir, v, props, additional).value;
    TransformObjectGives(env, dir, v, props, additional, values, extra);
  }

  lemma {:induction false} ObjectDirectionsAgree(env: Types, keep: set<string>, names: set<string>, v: Val,
      props: seq<Prop>, additional: Typ)
    requires Guarded(env) && NamesOk(env, keep, names) && KeepsNames(keep, ObjectOf(props, additional)) && IsObject(v)
    ensures Transform(env, Casting, v, ObjectOf(props, additional))
      == Transform(env, Uncasting, v, ObjectOf(props, additional))
    decreases Weight(v), v, HeadRank(env, ObjectOf(props, additional)), ObjectOf(props, additional), 0
  {
    hide Transform, TransformTable, TransformOthers, Rename, TableKeys, PropTable, Own, Field, NamesOk, Guarded,
      KeepsNames, HeadRank;
    KeptBelow(keep, Casting, props, additional);
    SameTable(props);
    forall key | key in PropTable(Casting, props)
      ensures Transform(env, Casting, Field(v, key), PropTable(Casting, props)[key].typ)
        == Transform(env, Uncasting, Field(v, key), PropTable(Casting, props)[key].typ)
    {
      FieldIsSmaller(v, key);
      DirectionsAgree(env, keep, names, Field(v, key), PropTable(Casting, props)[key].typ);
    }
    forall key | key in Own(v)
      ensures Transform(env, Casting, Own(v)[key], additional) == Transform(env, Uncasting, Own(v)[key], additional)
    {
      OwnIsSmaller(v, key);
      DirectionsAgree(env, keep, names, Own(v)[key], additional);
    }
    if Transform(env, Casting, v, ObjectOf(props, additional)).Success? {
      var values, extra := ObjectParts(env, Casting, v, props, additional);
      TransformObjectGives(env, Uncasting, v, props, additional, values, extra);
    } else if Transform(env, Uncasting, v, ObjectOf(props, additional)).Success? {
      var values, extra := ObjectParts(env, Uncasting, v, props, additional);
      TransformObjectGives(env, Casting, v, props, additional, values, extra);
    }
  }

  lemma {:induction false} RenameKeeps(keys: seq<string>, table: map<string, Target>, values: map<string, Val>)
    requires forall key :: key in keys ==> key in table && key in values && table[key].key == key
    ensures Rename(keys, table, values) == map key | key in keys :: values[key]
  {
    if keys != [] {
      RenameKeeps(keys[..|keys| - 1], table, values);
      assert keys == keys[..|keys| - 1] + [keys[|keys| - 1]];
    }
  }

  /** Where names are kept, a transformed value is the value filled with undefined properties,
      and transforming it again returns it unchanged, also through unions that take the first match. */
  lemma {:induction false} TransformedAgain(env: Types, keep: set<string>, names: set<string>, dir: Direction,
      v: Val, typ: Typ)
    requires Guarded(env) && NamesOk(env, keep, names) && KeepsNames(keep, typ) && Dateless(v)
    requires Transform(env, dir, v, typ).Success?
    ensures var w := Transform(env, dir, v, typ).value; Fills(v, w) && Transform(env, dir, w, typ) == Success(w)
    decreases Weight(v), v, HeadRank(env, typ), typ, 1
  {
    match typ
    case Any => FillsSelf(v);
    case NullType | Never | Enum(_) =>
    case Primitive(_) => FillsSelf(v);
    case Ref(name) =>
      ResolveKeepsNames(env, keep, names, name);
      TransformedAgain(env, keep, names, dir, v, AfterReference(Resolve(env, name)));
    case Union(members) => UnionTransformedAgain(env, keep, names, dir, v, members);
    case ArrayOf(element) =>
      var w := Transform(env, dir, v, typ).value;
      forall i | 0 <= i < |v.items|
        ensures Fills(v.items[i], w.items[i]) && Transform(env, dir, w.items[i], element) == Success(w.items[i])
      {
        TransformedAgain(env, keep, names, dir, v.items[i], element);
      }
      TransformArrayGives(env, dir, w, element, w.items);
    case ObjectOf(props, additional) => ObjectTransformedAgain(env, keep, names, dir, v, props, additional);
  }

  lemma {:induction false} UnionTransformedAgain(env: Types, keep: set<string>, names: set<string>, dir: Direction,
      v: Val, members: seq<Typ>)
    requires Guarded(env) && NamesOk(env, keep, names) && (forall m :: m in members ==> KeepsNames(keep, m))
      && Dateless(v)
    requires TransformUnion(env, dir, v, members).Success?
    ensures var w := TransformUnion(env, dir, v, members).value;
      Fills(v, w) && TransformUnion(env, dir, w, members) == Success(w)
    decreases Weight(v), v, HeadRankAll(env, members), members, 0
  {
    var first := members[0];
    if Transform(env, dir, v, first).Success? {
      TransformedAgain(env, keep, names, dir, v, first);
    } else {
      UnionTransformedAgain(env, keep, names, dir, v, members[1..]);
      var w := TransformUnion(env, dir, v, members).value;
      if Transform(env, dir, w, first).Success? {
        TransformAcceptsExactly(env, dir, w, first);
        ConformsUnfilled(env, dir, keep, names, v, w, first);
        TransformAcceptsExactly(env, dir, v, first);
        assert false;
      }
    }
  }

  lemma {:induction false} ObjectTransformedAgain(env: Types, keep: set<string>, names: set<string>,
      dir: Direction, v: Val, props: seq<Prop>, additional: Typ)
    requires Guarded(env) && NamesOk(env, keep, names) && KeepsNames(keep, ObjectOf(props, additional)) && Dateless(v)
    requires Transform(env, dir, v, ObjectOf(props, additional)).Success?
    ensures var w := Transform(env, dir, v, ObjectOf(props, additional)).value;
      Fills(v, w) && Transform(env, dir, w, ObjectOf(props, additional)) == Success(w)
    decreases Weight(v), v, HeadRank(env, ObjectOf(props, additional)), ObjectOf(props, additional), 0
  {
    hide Transform, TransformTable, TransformOthers, Rename, TableKeys, PropTable, NamesOk, Guarded, KeepsNames,
      HeadRank, Fills;
    KeptBelow(keep, dir, props, additional);
    OnlyObjects(env, dir, v, props, additional);
    var values, extra := ObjectParts(env, dir, v, props, additional);
    SameTable(props);
    var table := PropTable(dir, props);
    RenameKeeps(TableKeys(dir, props), table, values);
    assert (map key | key in TableKeys(dir, props) :: values[key]) == values;
    var w := Obj(values + extra);
    forall key | key in table
      ensures Fills(Field(v, key), values[key])
        && Transform(env, dir, values[key], table[key].typ) == Success(values[key])
    {
      FieldIsSmaller(v, key);
      TransformedAgain(env, keep, names, dir, Field(v, key), table[key].typ);
    }
    forall key | key in extra
      ensures Fills(Own(v)[key], extra[key]) && Transform(env, dir, extra[key], additional) == Success(extra[key])
    {
      OwnIsSmaller(v, key);
      TransformedAgain(env, keep, names, dir, Own(v)[key], additional);
    }
    FilledObject(v, w, values, extra);
    TransformObjectGives(env, dir, w, props, additional, values, extra);
  }

  lemma FilledObject(v: Val, w: Val, values: map<string, Val>, extra: map<string, Val>)
    requires v.Obj? && w == Obj(values + extra) && extra.Keys == v.fields.Keys - values.Keys
    requires forall key :: key in values ==> Fills(Field(v, key), values[key])
    requires forall key :: key in extra ==> Fills(v.fields[key], extra[key])
    ensures Fills(v, w)
    ensures forall key :: key in values ==> Field(w, key) == values[key]
    ensures forall key :: key in extra ==> Own(w)[key] == extra[key]
    ensures Own(w).Keys - values.Keys == extra.Keys
  {
  }

  lemma OnlyObjects(env: Types, dir: Direction, v: Val, props: seq<Prop>, additional: Typ)
    requires Guarded(env) && Transform(env, dir, v, ObjectOf(props, additional)).Success?
    ensures IsObject(v)
  {
  }

  // ----- renamed properties -----

  lemma {:induction false} TableOfDistinct(dir: Direction, props: seq<Prop>, p: Prop)
    requires DistinctNames(props) && p in props
    ensures From(dir, p) in PropTable(dir, props) && PropTable(dir, props)[From(dir, p)] == Target(To(dir, p), p.typ)
  {
    var init, last := props[..|props| - 1], props[|props| - 1];
    assert props == init + [last];
    if p != last {
      TableOfDistinct(dir, init, p);
      var i :| 0 <= i < |init| && init[i] == p;
      assert props[i] == p;
    }
  }

  lemma {:induction false} RenameDistinct(keys: seq<string>, table: map<string, Target>, values: map<string, Val>)
    requires forall key :: key in keys ==> key in table && key in values
    requires forall k, l :: k in keys && l in keys && k != l ==> table[k].key != table[l].key
    ensures forall key :: key in keys ==>
      table[key].key in Rename(keys, table, values) && Rename(keys, table, values)[table[key].key] == values[key]
    ensures forall x :: x in Rename(keys, table, values) ==> exists key :: key in keys && table[key].key == x
  {
    if keys != [] {
      RenameDistinct(keys[..|keys| - 1], table, values);
      assert keys == keys[..|keys| - 1] + [keys[|keys| - 1]];
    }
  }

  lemma DistinctTargets(dir: Direction, props: seq<Prop>, p: Prop, q: Prop)
    requires DistinctNames(props) && p in props && q in props && To(dir, p) == To(dir, q)
    ensures From(dir, p) == From(dir, q)
  {
    var i :| 0 <= i < |props| && props[i] == p;
    var j :| 0 <= j < |props| && props[j] == q;
  }

  /** With distinct names the result holds each property under its new name, and nothing else. */
  lemma RenamedProps(dir: Direction, props: seq<Prop>, values: map<string, Val>)
    requires DistinctNames(props) && values.Keys == PropTable(dir, props).Keys
    ensures var r := Rename(TableKeys(dir, props), PropTable(dir, props), values);
      && (forall p :: p in props ==> From(dir, p) in values && To(dir, p) in r && r[To(dir, p)] == values[From(dir, p)])
      && (forall x :: x in r ==> exists p :: p in props && To(dir, p) == x)
  {
    hide Rename, TableKeys, PropTable, DistinctNames;
    var keys, table := TableKeys(dir, props), PropTable(dir, props);
    forall k, l | k in keys && l in keys && k != l ensures table[k].key != table[l].key {
      var p := TableEntry(dir, props, k);
      var q := TableEntry(dir, props, l);
      if To(dir, p) == To(dir, q) { DistinctTargets(dir, props, p, q); }
    }
    RenameDistinct(keys, table, values);
    var r := Rename(keys, table, values);
    forall p | p in props ensures From(dir, p) in values && To(dir, p) in r && r[To(dir, p)] == values[From(dir, p)] {
      TableOfDistinct(dir, props, p);
    }
    forall x | x in r ensures exists p :: p in props && To(dir, p) == x {
      var key :| key in keys && table[key].key == x;
      var p := TableEntry(dir, props, key);
    }
  }

  /** Uncasting what a cast returned gives the value back, filled with undefined properties. */
  lemma {:induction false} UncastUndoesCast(env: Types, keep: set<string>, names: set<string>, v: Val, typ: Typ)
    requires Guarded(env) && NamesOk(env, keep, names) && Reversible(keep, names, typ) && Dateless(v)
    requires Cast(env, v, typ).Success?
    ensures var back := Uncast(env, Cast(env, v, typ).value, typ); back.Success? && Fills(v, back.value)
    decreases Weight(v), v, HeadRank(env, typ), typ, 1
  {
    if KeepsNames(keep, typ) {
      TransformedAgain(env, keep, names, Casting, v, typ);
      DirectionsAgree(env, keep, names, Cast(env, v, typ).value, typ);
    } else {
      match typ
      case Ref(name) =>
        ResolveReversible(env, keep, names, name);
        UncastUndoesCast(env, keep, names, v, AfterReference(Resolve(env, name)));
      case ArrayOf(element) => ArrayUndone(env, keep, names, v, element);
      case ObjectOf(props, additional) => ObjectUndone(env, keep, names, v, props);
    }
  }

  lemma {:induction false} ArrayUndone(env: Types, keep: set<string>, names: set<string>, v: Val, element: Typ)
    requires Guarded(env) && NamesOk(env, keep, names) && Reversible(keep, names, element) && Dateless(v)
    requires Cast(env, v, ArrayOf(element)).Success?
    ensures var back := Uncast(env, Cast(env, v, ArrayOf(element)).value, ArrayOf(element));
      back.Success? && Fills(v, back.value)
    decreases Weight(v), v, HeadRank(env, ArrayOf(element)), ArrayOf(element), 0
  {
    var w := Cast(env, v, ArrayOf(element)).value;
    forall i | 0 <= i < |v.items|
      ensures Uncast(env, w.items[i], element).Success? && Fills(v.items[i], Uncast(env, w.items[i], element).value)
    {
      UncastUndoesCast(env, keep, names, v.items[i], element);
    }
    var items := seq(|w.items|, i requires 0 <= i < |w.items| => Uncast(env, w.items[i], element).value);
    TransformArrayGives(env, Uncasting, w, element, items);
  }

  lemma {:induction false} ObjectUndone(env: Types, keep: set<string>, names: set<string>, v: Val, props: seq<Prop>)
    requires Guarded(env) && NamesOk(env, keep, names) && Dateless(v)
    requires DistinctNames(props) && forall p :: p in props ==> Reversible(keep, names, p.typ)
    requires Cast(env, v, ObjectOf(props, Never)).Success?
    ensures var back := Uncast(env, Cast(env, v, ObjectOf(props, Never)).value, ObjectOf(props, Never));
      back.Success? && Fills(v, back.value)
    decreases Weight(v), v, HeadRank(env, ObjectOf(props, Never)), ObjectOf(props, Never), 0
  {
    hide PropTable, TableKeys, Rename, NamesOk, Guarded, Reversible, HeadRank, Fills, TransformTable, TransformOthers,
      Transform;
    OnlyObjects(env, Casting, v, props, Never);
    var values, extra := ObjectParts(env, Casting, v, props, Never);
    NothingElse(env, Casting, v, extra);
    RenamedProps(Casting, props, values);
    var w := Cast(env, v, ObjectOf(props, Never)).value;
    forall p | p in props
      ensures Uncast(env, Field(w, p.js), p.typ).Success?
      ensures Fills(Field(v, p.json), Uncast(env, Field(w, p.js), p.typ).value)
    {
      TableOfDistinct(Casting, props, p);
      FieldIsSmaller(v, p.json);
      UncastUndoesCast(env, keep, names, Field(v, p.json), p.typ);
    }
    ObjectBack(env, v, w, props);
  }

  lemma NothingElse(env: Types, dir: Direction, v: Val, extra: map<string, Val>)
    requires Guarded(env) && IsObject(v) && extra.Keys <= Own(v).Keys
    requires forall key :: key in extra ==> Transform(env, dir, Own(v)[key], Never) == Success(extra[key])
    ensures extra == map[]
  {
  }

  /** If each property alone is undone, the object is. */
  lemma ObjectBack(env: Types, v: Val, w: Val, props: seq<Prop>)
    requires Guarded(env) && DistinctNames(props) && v.Obj? && w.Obj?
    requires v.fields.Keys <= PropTable(Casting, props).Keys
    requires forall x :: x in w.fields ==> exists p :: p in props && p.js == x
    requires forall p :: p in props ==> Uncast(env, Field(w, p.js), p.typ).Success?
    requires forall p :: p in props ==> Fills(Field(v, p.json), Uncast(env, Field(w, p.js), p.typ).value)
    ensures var back := Uncast(env, w, ObjectOf(props, Never)); back.Success? && Fills(v, back.value)
  {
    var values := UncastProps(env, w, props);
    var r := Rename(TableKeys(Uncasting, props), PropTable(Uncasting, props), values);
    FilledBack(env, v, w, props, values, r);
  }

  lemma UncastProps(env: Types, w: Val, props: seq<Prop>) returns (values: map<string, Val>)
    requires Guarded(env) && DistinctNames(props) && w.Obj?
    requires forall x :: x in w.fields ==> exists p :: p in props && p.js == x
    requires forall p :: p in props ==> Uncast(env, Field(w, p.js), p.typ).Success?
    ensures values.Keys == PropTable(Uncasting, props).Keys
    ensures forall p :: p in props ==> p.js in values && Uncast(env, Field(w, p.js), p.typ) == Success(values[p.js])
    ensures Uncast(env, w, ObjectOf(props, Never))
      == Success(Obj(Rename(TableKeys(Uncasting, props), PropTable(Uncasting, props), values)))
  {
    hide PropTable, TableKeys, Rename, Guarded, Transform, HeadRank;
    var table := PropTable(Uncasting, props);
    forall key | key in table ensures Transform(env, Uncasting, Field(w, key), table[key].typ).Success? {
      var p := TableEntry(Uncasting, props, key);
    }
    values := map key | key in table :: Transform(env, Uncasting, Field(w, key), table[key].typ).value;
    forall x | x in w.fields ensures x in table {
      var p :| p in props && p.js == x;
      TableHas(Uncasting, props, p);
    }
    TransformObjectGives(env, Uncasting, w, props, Never, values, map[]);
    var r := Rename(TableKeys(Uncasting, props), table, values);
    assert r + map[] == r;
    forall p | p in props ensures p.js in values && Uncast(env, Field(w, p.js), p.typ) == Success(values[p.js]) {
      TableOfDistinct(Uncasting, props, p);
    }
  }

  lemma FilledBack(env: Types, v: Val, w: Val, props: seq<Prop>, values: map<string, Val>, r: map<string, Val>)
    requires Guarded(env) && DistinctNames(props) && v.Obj? && w.Obj?
    requires v.fields.Keys <= PropTable(Casting, props).Keys && values.Keys == PropTable(Uncasting, props).Keys
    requires forall p :: p in props ==> p.js in values && Fills(Field(v, p.json), values[p.js])
    requires r == Rename(TableKeys(Uncasting, props), PropTable(Uncasting, props), values)
    ensures Fills(v, Obj(r))
  {
    hide PropTable, TableKeys, Rename, Guarded, DistinctNames;
    RenamedProps(Uncasting, props, values);
    forall key | key in v.fields ensures key in r { var p := TableEntry(Casting, props, key); }
  }

  /** For JSON values the original is what JSON.stringify then shows. */
  lemma RoundTripOfJson(env: Types, keep: set<string>, names: set<string>, v: Val, typ: Typ)
    requires Guarded(env) && NamesOk(env, keep, names) && Reversible(keep, names, typ) && IsJson(v)
    requires Cast(env, v, typ).Success?
    ensures var back := Uncast(env, Cast(env, v, typ).value, typ); back.Success? && Shown(back.value) == v
  {
    JsonIsDateless(v);
    UncastUndoesCast(env, keep, names, v, typ);
    FillsShows(v, Uncast(env, Cast(env, v, typ).value, typ).value);
    JsonShowsItself(v);
  }

  // ----- the types of the program -----

  const GRYPE_CVSS := ObjectOf([
    Prop("VendorMetadata", "VendorMetadata", Any),
    Prop("Metrics", "Metrics", Ref("Metrics")),
    Prop("Vector", "Vector", Primitive("string")),
    Prop("Version", "Version", Primitive("string"))], Never)

  const METRICS := ObjectOf([
    Prop("BaseScore", "BaseScore", Primitive("number")),
    Prop("ExploitabilityScore", "ExploitabilityScore", Primitive("number")),
    Prop("ImpactScore", "ImpactScore", Primitive("number"))], Never)

  function GrypeTypes(dateOf: Val -> Option<int>): Types {
    Types(map["GrypeCvss" := GRYPE_CVSS, "Metrics" := METRICS], dateOf, map["GrypeCvss" := 0, "Metrics" := 0])
  }

  /** Every JSON value that toGrypeCvss accepts is what grypeCvssToJson writes back. */
  lemma GrypeCvssRoundTrip(dateOf: Val -> Option<int>, json: Val)
    requires IsJson(json)
    ensures Guarded(GrypeTypes(dateOf))
    ensures var typ := ArrayOf(Ref("GrypeCvss"));
      Cast(GrypeTypes(dateOf), json, typ).Success? ==>
      var back := Uncast(GrypeTypes(dateOf), Cast(GrypeTypes(dateOf), json, typ).value, typ);
      back.Success? && Shown(back.value) == json
  {
    var env, names := GrypeTypes(dateOf), {"GrypeCvss", "Metrics"};
    GrypeTypesOk(dateOf);
    if Cast(env, json, ArrayOf(Ref("GrypeCvss"))).Success? {
      RoundTripOfJson(env, names, {}, json, ArrayOf(Ref("GrypeCvss")));
    }
  }

  /** Nothing but these three scores, each a number. */
  predicate IsMetrics(v: Val) {
    && v.Obj? && v.fields.Keys == {"BaseScore", "ExploitabilityScore", "ImpactScore"}
    && v.fields["BaseScore"].Num? && v.fields["ExploitabilityScore"].Num? && v.fields["ImpactScore"].Num?
  }

  /** Metrics, and vector and version as strings; the vendor's metadata are anything and may be missing. */
  predicate IsCvss(v: Val) {
    && v.Obj? && {"Metrics", "Vector", "Version"} <= v.fields.Keys
    && v.fields.Keys <= {"VendorMetadata", "Metrics", "Vector", "Version"}
    && IsMetrics(v.fields["Metrics"]) && v.fields["Vector"].Str? && v.fields["Version"].Str?
  }

  /** toGrypeCvss accepts exactly the lists of such objects. */
  lemma GrypeCvssAccepts(dateOf: Val -> Option<int>, json: Val)
    ensures Guarded(GrypeTypes(dateOf))
    ensures Cast(GrypeTypes(dateOf), json, ArrayOf(Ref("GrypeCvss"))).Success?
      <==> json.Arr? && forall i :: 0 <= i < |json.items| ==> IsCvss(json.items[i])
  {
    hide Transform, IsCvss;
    var env := GrypeTypes(dateOf);
    GrypeTypesOk(dateOf);
    ArrayStep(env, Casting, json, Ref("GrypeCvss"));
    if json.Arr? {
      forall i | 0 <= i < |json.items|
        ensures Cast(env, json.items[i], Ref("GrypeCvss")).Success? <==> IsCvss(json.items[i])
      {
        CvssAccepts(dateOf, json.items[i]);
      }
    }
  }

  lemma CvssAccepts(dateOf: Val -> Option<int>, v: Val)
    requires Guarded(GrypeTypes(dateOf))
    ensures Cast(GrypeTypes(dateOf), v, Ref("GrypeCvss")).Success? <==> IsCvss(v)
  {
    hide Transform, PropTable, IsMetrics, Fits, Guarded;
    var env := GrypeTypes(dateOf);
    ReferenceStep(env, Casting, v, "GrypeCvss");
    ClosedObject(env, v, GRYPE_CVSS.props);
    CvssTable();
    MetricsAccepts(dateOf, Undefined);
    assert !IsMetrics(Undefined) by { UndefinedIsNoMetrics(); }
    CvssFields(env, v, "VendorMetadata", "Metrics", "Vector", "Version", Ref("Metrics"));
    if v.Obj? && "Metrics" in v.fields { MetricsAccepts(dateOf, v.fields["Metrics"]); }
  }

  lemma UndefinedIsNoMetrics()
    ensures !IsMetrics(Undefined)
  {
  }

  lemma MetricsAccepts(dateOf: Val -> Option<int>, v: Val)
    requires Guarded(GrypeTypes(dateOf))
    ensures Cast(GrypeTypes(dateOf), v, Ref("Metrics")).Success? <==> IsMetrics(v)
  {
    hide Transform, PropTable, Fits, Guarded;
    var env := GrypeTypes(dateOf);
    ReferenceStep(env, Casting, v, "Metrics");
    ClosedObject(env, v, METRICS.props);
    MetricsTable();
    ThreeNumbers(env, v, "BaseScore", "ExploitabilityScore", "ImpactScore");
  }

  /** An object with no other properties than those of the table, each of its type. */
  ghost predicate Fits(env: Types, v: Val, table: map<string, Target>)
    requires Guarded(env)
  {
    && IsObject(v) && Own(v).Keys <= table.Keys
    && forall key :: key in table ==> Cast(env, Field(v, key), table[key].typ).Success?
  }

  lemma ThreeNumbers(env: Types, v: Val, a: string, b: string, c: string)
    requires Guarded(env) && a != b && a != c && b != c
    ensures var number := Primitive("number");
      Fits(env, v, map[a := Target(a, number), b := Target(b, number), c := Target(c, number)])
      <==> v.Obj? && v.fields.Keys == {a, b, c} && v.fields[a].Num? && v.fields[b].Num? && v.fields[c].Num?
  {
    hide Transform, Guarded;
    var number := Primitive("number");
    var table := map[a := Target(a, number), b := Target(b, number), c := Target(c, number)];
    if IsObject(v) {
      forall key | key in table
        ensures Cast(env, Field(v, key), table[key].typ).Success? <==> key in Own(v) && Own(v)[key].Num?
      {
        PrimitiveAccepts(env, Casting, Field(v, key));
      }
      assert a in table && b in table && c in table && table.Keys == {a, b, c};
    }
  }

  lemma CvssFields(env: Types, v: Val, any: string, m: string, a: string, b: string, typ: Typ)
    requires Guarded(env) && any !in {m, a, b} && m !in {a, b} && a != b && Cast(env, Undefined, typ).Failure?
    ensures var text := Primitive("string");
      Fits(env, v, map[any := Target(any, Any), m := Target(m, typ), a := Target(a, text), b := Target(b, text)]) <==>
      && v.Obj? && {m, a, b} <= v.fields.Keys && v.fields.Keys <= {any, m, a, b}
      && Cast(env, v.fields[m], typ).Success? && v.fields[a].Str? && v.fields[b].Str?
  {
    hide Transform, Guarded;
    var text := Primitive("string");
    var table := map[any := Target(any, Any), m := Target(m, typ), a := Target(a, text), b := Target(b, text)];
    if IsObject(v) {
      AnyAccepted(env, Field(v, any));
      forall key | key == a || key == b
        ensures Cast(env, Field(v, key), table[key].typ).Success? <==> key in Own(v) && Own(v)[key].Str?
      {
        PrimitiveAccepts(env, Casting, Field(v, key));
      }
      assert any in table && m in table && a in table && b in table && table.Keys == {any, m, a, b};
    }
  }

  lemma AnyAccepted(env: Types, v: Val)
    requires Guarded(env)
    ensures Cast(env, v, Any).Success?
  {
  }

  lemma ClosedObject(env: Types, v: Val, props: seq<Prop>)
    requires Guarded(env)
    ensures Cast(env, v, ObjectOf(props, Never)).Success? <==> Fits(env, v, PropTable(Casting, props))
  {
    hide Transform, PropTable, Own, Field, TransformTable, TransformOthers;
    if IsObject(v) {
      TransformObjectWhen(env, Casting, v, props, Never);
      TransformTableWhen(env, Casting, v, props);
      TransformOthersWhen(env, Casting, v, props, Never);
      forall key | key in Own(v) ensures Cast(env, Own(v)[key], Never).Failure? { NeverAccepted(env, Own(v)[key]); }
    } else {
      NotAnObject(env, Casting, v, props, Never);
    }
  }

  lemma NeverAccepted(env: Types, v: Val)
    requires Guarded(env)
    ensures Cast(env, v, Never).Failure?
  {
  }

  lemma CvssTable()
    ensures PropTable(Casting, GRYPE_CVSS.props) == map[
      "VendorMetadata" := Target("VendorMetadata", Any), "Metrics" := Target("Metrics", Ref("Metrics")),
      "Vector" := Target("Vector", Primitive("string")), "Version" := Target("Version", Primitive("string"))]
  {
    TableOfFour(GRYPE_CVSS.props[0], GRYPE_CVSS.props[1], GRYPE_CVSS.props[2], GRYPE_CVSS.props[3]);
  }

  lemma MetricsTable()
    ensures PropTable(Casting, METRICS.props) == map[
      "BaseScore" := Target("BaseScore", Primitive("number")),
      "ExploitabilityScore" := Target("ExploitabilityScore", Primitive("number")),
      "ImpactScore" := Target("ImpactScore", Primitive("number"))]
  {
    TableOfThree(METRICS.props[0], METRICS.props[1], METRICS.props[2]);
  }

  lemma TableOfThree(a: Prop, b: Prop, c: Prop)
    ensures PropTable(Casting, [a, b, c]) == map[
      a.json := Target(a.js, a.typ)][b.json := Target(b.js, b.typ)][c.json := Target(c.js, c.typ)]
  {
    assert [a, b, c][..2] == [a, b] && [a, b][..1] == [a] && [a][..0] == [];
    assert PropTable(Casting, [a]) == map[a.json := Target(a.js, a.typ)];
    assert PropTable(Casting, [a, b]) == PropTable(Casting, [a])[b.json := Target(b.js, b.typ)];
  }

  lemma TableOfFour(a: Prop, b: Prop, c: Prop, d: Prop)
    ensures PropTable(Casting, [a, b, c, d]) == PropTable(Casting, [a, b, c])[d.json := Target(d.js, d.typ)]
    ensures PropTable(Casting, [a, b, c]) == map[
      a.json := Target(a.js, a.typ)][b.json := Target(b.js, b.typ)][c.json := Target(c.js, c.typ)]
  {
    TableOfThree(a, b, c);
    assert [a, b, c, d][..3] == [a, b, c];
  }

  lemma MetricsKept(keep: set<string>, env: Types)
    ensures KeepsNames(keep, METRICS) && HeadRank(env, METRICS) == 0
  {
    forall p | p in METRICS.props ensures p.json == p.js && p.typ == Primitive("number") {}
  }

  lemma CvssKept(keep: set<string>, env: Types)
    requires "Metrics" in keep
    ensures KeepsNames(keep, GRYPE_CVSS) && HeadRank(env, GRYPE_CVSS) == 0
  {
    forall p | p in GRYPE_CVSS.props
      ensures p.json == p.js && (p.typ == Any || p.typ == Ref("Metrics") || p.typ == Primitive("string"))
    {}
  }

  lemma GrypeTypesOk(dateOf: Val -> Option<int>)
    ensures Guarded(GrypeTypes(dateOf)) && NamesOk(GrypeTypes(dateOf), {"GrypeCvss", "Metrics"}, {})
    ensures Reversible({"GrypeCvss", "Metrics"}, {}, ArrayOf(Ref("GrypeCvss")))
  {
    hide KeepsNames, HeadRank;
    var keep, env := {"GrypeCvss", "Metrics"}, GrypeTypes(dateOf);
    MetricsKept(keep, env);
    CvssKept(keep, env);
    assert KeepsNames(keep, Ref("GrypeCvss")) by { NameKept(keep, "GrypeCvss"); }
  }

  lemma NameKept(keep: set<string>, name: string)
    requires name in keep
    ensures KeepsNames(keep, Ref(name))
  {
  }

  // ----- exactly when renaming loses a property -----

  ghost predicate AllAny(props: seq<Prop>) {
    forall p :: p in props ==> p.typ == Any
  }

  ghost predicate DistinctJson(props: seq<Prop>) {
    forall i, j :: 0 <= i < j < |props| ==> props[i].json != props[j].json
  }

  ghost predicate DistinctJs(props: seq<Prop>) {
    forall i, j :: 0 <= i < j < |props| ==> props[i].js != props[j].js
  }

  ghost predicate ComesBack(env: Types, v: Val, typ: Typ)
    requires Guarded(env)
  {
    Cast(env, v, typ).Success? ==>
      var back := Uncast(env, Cast(env, v, typ).value, typ); back.Success? && Shown(back.value) == v
  }

  /** An object type that restricts no property returns every JSON object exactly when its js names are distinct. */
  lemma ComesBackIffDistinct(env: Types, props: seq<Prop>)
    requires Guarded(env) && AllAny(props) && DistinctJson(props)
    ensures (forall v :: IsJson(v) ==> ComesBack(env, v, ObjectOf(props, Never))) <==> DistinctJs(props)
  {
    hide Guarded, AllAny, ComesBack, IsJson;
    var typ := ObjectOf(props, Never);
    if DistinctJs(props) {
      forall v | IsJson(v) ensures ComesBack(env, v, typ) { DistinctComesBack(env, v, props); }
    } else {
      var i, j :| 0 <= i < j < |props| && props[i].js == props[j].js;
      var v := Obj(map[props[i].json := Num(1.0), props[j].json := Num(2.0)]);
      TwoNumbersAreJson(props[i].json, props[j].json);
      SharedJsNameLoses(env, props, i, j, v);
    }
  }

  lemma TwoNumbersAreJson(a: string, b: string)
    ensures IsJson(Obj(map[a := Num(1.0), b := Num(2.0)]))
  {
  }

  lemma DistinctComesBack(env: Types, v: Val, props: seq<Prop>)
    requires Guarded(env) && AllAny(props) && DistinctJson(props) && DistinctJs(props) && IsJson(v)
    ensures ComesBack(env, v, ObjectOf(props, Never))
  {
    hide Guarded, Shown, IsJson;
    if Cast(env, v, ObjectOf(props, Never)).Success? { RoundTripOfJson(env, {}, {}, v, ObjectOf(props, Never)); }
  }

  lemma SharedJsNameLoses(env: Types, props: seq<Prop>, i: nat, j: nat, v: Val)
    requires Guarded(env) && AllAny(props) && DistinctJson(props)
    requires i < j < |props| && props[i].js == props[j].js
    requires v == Obj(map[props[i].json := Num(1.0), props[j].json := Num(2.0)])
    ensures !ComesBack(env, v, ObjectOf(props, Never))
  {
    hide PropTable, TableKeys, Rename, Transform, Shown;
    var typ := ObjectOf(props, Never);
    var p, q := props[i], props[j];
    TableHas(Casting, props, p);
    TableHas(Casting, props, q);
    AnyProps(env, Casting, props, v);
    if ComesBack(env, v, typ) {
      var w := Cast(env, v, typ).value;
      OnlyObjects(env, Uncasting, w, props, Never);
      var values, extra := ObjectParts(env, Uncasting, w, props, Never);
      NothingElse(env, Uncasting, w, extra);
      var back := Uncast(env, w, typ).value;
      ShownIsPart(back, p.json);
      ShownIsPart(back, q.json);
      var table, keys := PropTable(Uncasting, props), TableKeys(Uncasting, props);
      RenameOnly(keys, table, values, p.json);
      RenameOnly(keys, table, values, q.json);
      var k :| k in keys && table[k].key == p.json;
      var l :| l in keys && table[l].key == q.json;
      var pe := TableEntry(Uncasting, props, k);
      var qe := TableEntry(Uncasting, props, l);
      SameJsonSameProp(props, pe, p);
      SameJsonSameProp(props, qe, q);
      assert false;
    }
  }

  lemma SameJsonSameProp(props: seq<Prop>, p: Prop, q: Prop)
    requires DistinctJson(props) && p in props && q in props && p.json == q.json
    ensures p == q
  {
    var i :| 0 <= i < |props| && props[i] == p;
    var j :| 0 <= j < |props| && props[j] == q;
  }

  lemma ShownIsPart(v: Val, key: string)
    requires v.Obj? && Shown(v).Obj?
    ensures key in Shown(v).fields ==> key in v.fields
  {
  }

  lemma {:induction false} RenameOnly(keys: seq<string>, table: map<string, Target>, values: map<string, Val>,
      x: string)
    requires forall key :: key in keys ==> key in table && key in values
    ensures x in Rename(keys, table, values) ==> exists key :: key in keys && table[key].key == x
  {
    if keys != [] {
      RenameOnly(keys[..|keys| - 1], table, values, x);
      assert keys == keys[..|keys| - 1] + [keys[|keys| - 1]];
    }
  }

  /** An object whose properties are all declared, without restriction, is accepted. */
  lemma AnyProps(env: Types, dir: Direction, props: seq<Prop>, v: Val)
    requires Guarded(env) && AllAny(props) && v.Obj? && v.fields.Keys <= PropTable(dir, props).Keys
    ensures Transform(env, dir, v, ObjectOf(props, Never)).Success?
  {
    hide PropTable;
    TransformObjectWhen(env, dir, v, props, Never);
    TransformTableWhen(env, dir, v, props);
    TransformOthersWhen(env, dir, v, props, Never);
    forall key | key in PropTable(dir, props) ensures PropTable(dir, props)[key].typ == Any {
      var p := TableEntry(dir, props, key);
    }
  }
}
