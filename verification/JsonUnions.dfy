/** Exactly when values come back through a union that takes the first member that fits. */
module JsonUnions {
  import opened Options
  import opened JsonTypes
  import opened JsonTransform
  import opened JsonRoundTrip

  /** An object type with distinct names that restricts no property and allows no other. */
  ghost predicate Plain(props: seq<Prop>) {
    AllAny(props) && DistinctNames(props)
  }

  function Names(dir: Direction, props: seq<Prop>): set<string> {
    set p | p in props :: From(dir, p)
  }

  function Members(objects: seq<seq<Prop>>): (members: seq<Typ>)
    ensures |members| == |objects|
  {
    seq(|objects|, i requires 0 <= i < |objects| => ObjectOf(objects[i], Never))
  }

  /** The first member whose names include all the keys, or the number of members. */
  function FirstFit(dir: Direction, objects: seq<seq<Prop>>, keys: set<string>): (i: nat)
    ensures i <= |objects| && (i < |objects| ==> keys <= Names(dir, objects[i]))
    ensures forall h :: 0 <= h < i ==> !(keys <= Names(dir, objects[h]))
  {
    if objects == [] || keys <= Names(dir, objects[0]) then 0
    else 1 + FirstFit(dir, objects[1..], keys)
  }

  /** Some object fits this member first: no earlier one has all its json names. */
  ghost predicate Chosen(objects: seq<seq<Prop>>, i: nat) {
    i < |objects| && forall h :: 0 <= h < i ==> !(Names(Casting, objects[i]) <= Names(Casting, objects[h]))
  }

  /** The first member that has all the js names of this one gives each of them its json name back. */
  ghost predicate MapsBack(objects: seq<seq<Prop>>, i: nat) {
    i < |objects| &&
    var j := FirstFit(Uncasting, objects, Names(Uncasting, objects[i]));
    j < |objects| && forall p :: p in objects[i] ==> exists q :: q in objects[j] && q.js == p.js && q.json == p.json
  }

  // ----- one member -----

  lemma TableNames(dir: Direction, props: seq<Prop>)
    ensures PropTable(dir, props).Keys == Names(dir, props)
  {
    hide PropTable;
    forall key | key in PropTable(dir, props) ensures key in Names(dir, props) {
      var p := TableEntry(dir, props, key);
    }
    forall key | key in Names(dir, props) ensures key in PropTable(dir, props) {
      var p :| p in props && From(dir, p) == key;
      TableHas(dir, props, p);
    }
  }

  /** w holds each property of v under its new name, missing ones as undefined, and nothing else. */
  ghost predicate Renamed(dir: Direction, props: seq<Prop>, v: Val, w: Val)
    requires IsObject(v)
  {
    && w.Obj? && (forall p :: p in props ==> To(dir, p) in w.fields && w.fields[To(dir, p)] == Field(v, From(dir, p)))
    && forall x :: x in w.fields ==> exists p :: p in props && To(dir, p) == x
  }

  lemma AnyGives(env: Types, dir: Direction, v: Val)
    requires Guarded(env)
    ensures Transform(env, dir, v, Any) == Success(v)
  {
  }

  lemma PlainRenames(env: Types, dir: Direction, v: Val, props: seq<Prop>)
    requires Guarded(env) && Plain(props) && v.Obj? && Transform(env, dir, v, ObjectOf(props, Never)).Success?
    ensures v.fields.Keys <= Names(dir, props)
      && Renamed(dir, props, v, Transform(env, dir, v, ObjectOf(props, Never)).value)
  {
    hide Transform, PropTable, TableKeys, Rename, AllAny, DistinctNames, Guarded, Field, Names;
    TableNames(dir, props);
    var values, extra := ObjectParts(env, dir, v, props, Never);
    NothingElse(env, dir, v, extra);
    RenamedProps(dir, props, values);
    var r := Rename(TableKeys(dir, props), PropTable(dir, props), values);
    assert r + map[] == r;
    forall p | p in props ensures values[From(dir, p)] == Field(v, From(dir, p)) {
      AnyEntry(dir, props, p);
      AnyGives(env, dir, Field(v, From(dir, p)));
    }
    forall key | key in v.fields ensures key in Names(dir, props) { assert key !in extra; }
  }

  lemma PlainTransform(env: Types, dir: Direction, v: Val, props: seq<Prop>)
    requires Guarded(env) && Plain(props) && v.Obj?
    ensures var r := Transform(env, dir, v, ObjectOf(props, Never));
      && (r.Success? <==> v.fields.Keys <= Names(dir, props))
      && (r.Success? ==> Renamed(dir, props, v, r.value))
  {
    hide Transform, PropTable, AllAny, DistinctNames, Guarded, Renamed, Names;
    TableNames(dir, props);
    if v.fields.Keys <= Names(dir, props) { AnyProps(env, dir, props, v); }
    if Transform(env, dir, v, ObjectOf(props, Never)).Success? { PlainRenames(env, dir, v, props); }
  }

  /** Casting gives a JSON property its JavaScript name, and uncasting gives the JSON name back. */
  lemma CastRenames(env: Types, json: string, js: string, v: Val)
    requires Guarded(env)
    ensures var typ := ObjectOf([Prop(json, js, Any)], Never);
      && Cast(env, Obj(map[json := v]), typ) == Success(Obj(map[js := v]))
      && Uncast(env, Obj(map[js := v]), typ) == Success(Obj(map[json := v]))
  {
    var p := Prop(json, js, Any);
    RenamesOne(env, Casting, p, v);
    RenamesOne(env, Uncasting, p, v);
  }

  lemma RenamesOne(env: Types, dir: Direction, p: Prop, v: Val)
    requires Guarded(env) && p.typ == Any
    ensures Transform(env, dir, Obj(map[From(dir, p) := v]), ObjectOf([p], Never)) == Success(Obj(map[To(dir, p) := v]))
  {
    hide Transform, PropTable, Guarded, Plain, Names;
    var source := Obj(map[From(dir, p) := v]);
    NamesOfOne(dir, p);
    PlainTransform(env, dir, source, [p]);
    var w := Transform(env, dir, source, ObjectOf([p], Never)).value;
    assert p in [p] && w.fields[To(dir, p)] == v;
    forall x | x in w.fields ensures x == To(dir, p) {
      var q :| q in [p] && To(dir, q) == x;
    }
    assert w.fields == map[To(dir, p) := v];
  }

  lemma AnyEntry(dir: Direction, props: seq<Prop>, p: Prop)
    requires Plain(props) && p in props
    ensures From(dir, p) in PropTable(dir, props) && PropTable(dir, props)[From(dir, p)].typ == Any
  {
    TableOfDistinct(dir, props, p);
  }

  // ----- the union -----

  lemma {:induction false} UnionTakesFirst(env: Types, dir: Direction, v: Val, objects: seq<seq<Prop>>)
    requires Guarded(env) && v.Obj? && forall i :: 0 <= i < |objects| ==> Plain(objects[i])
    ensures var i := FirstFit(dir, objects, v.fields.Keys);
      TransformUnion(env, dir, v, Members(objects))
        == if i < |objects| then Transform(env, dir, v, ObjectOf(objects[i], Never)) else Failure
  {
    hide Transform, Plain, Names;
    if objects != [] {
      assert Members(objects)[0] == ObjectOf(objects[0], Never) && Members(objects)[1..] == Members(objects[1..]);
      PlainTransform(env, dir, v, objects[0]);
      if !(v.fields.Keys <= Names(dir, objects[0])) { UnionTakesFirst(env, dir, v, objects[1..]); }
    }
  }

  lemma {:induction false} OnlyObjectsFit(env: Types, dir: Direction, v: Val, objects: seq<seq<Prop>>)
    requires Guarded(env) && !IsObject(v)
    ensures TransformUnion(env, dir, v, Members(objects)) == Failure
  {
    if objects != [] {
      assert Members(objects)[0] == ObjectOf(objects[0], Never) && Members(objects)[1..] == Members(objects[1..]);
      OnlyObjectsFit(env, dir, v, objects[1..]);
    }
  }

  lemma UnionIs(env: Types, dir: Direction, v: Val, members: seq<Typ>)
    requires Guarded(env)
    ensures Transform(env, dir, v, Union(members)) == TransformUnion(env, dir, v, members)
  {
  }

  lemma RenamedKeys(dir: Direction, other: Direction, props: seq<Prop>, v: Val, w: Val)
    requires IsObject(v) && Renamed(dir, props, v, w) && dir != other
    ensures w.fields.Keys == Names(other, props)
  {
  }

  lemma SameJs(props: seq<Prop>, p: Prop, q: Prop)
    requires DistinctNames(props) && p in props && q in props && p.js == q.js
    ensures p == q
  {
    var i :| 0 <= i < |props| && props[i] == p;
    var j :| 0 <= j < |props| && props[j] == q;
  }

  /** There by way of member i and back by way of member j. */
  lemma ThereAndBack(there: seq<Prop>, back: seq<Prop>, v: Val, w: Val, r: Val)
    requires Plain(there) && Plain(back) && v.Obj? && v.fields.Keys <= Names(Casting, there)
    requires Renamed(Casting, there, v, w) && Renamed(Uncasting, back, w, r)
    requires forall p :: p in there ==> exists q :: q in back && q.js == p.js && q.json == p.json
    ensures Fills(v, r)
  {
    hide Fills, AllAny, DistinctNames;
    forall key | key in v.fields ensures key in r.fields && r.fields[key] == v.fields[key] {
      var p :| p in there && p.json == key;
      var q :| q in back && q.js == p.js && q.json == p.json;
    }
    forall key | key in r.fields && key !in v.fields ensures r.fields[key] == Undefined {
      var q :| q in back && q.json == key;
      if q.js in w.fields {
        var p :| p in there && p.js == q.js;
        var q' :| q' in back && q'.js == p.js && q'.json == p.json;
        SameJs(back, q, q');
      }
    }
    FillsObject(v, r);
  }

  lemma FillsObject(v: Val, r: Val)
    requires v.Obj? && r.Obj?
    requires forall key :: key in v.fields ==> key in r.fields && r.fields[key] == v.fields[key]
    requires forall key :: key in r.fields && key !in v.fields ==> r.fields[key] == Undefined
    ensures Fills(v, r)
  {
    forall key | key in v.fields ensures Fills(v.fields[key], r.fields[key]) { FillsSelf(v.fields[key]); }
  }

  lemma ComesBackThrough(env: Types, objects: seq<seq<Prop>>, v: Val)
    requires Guarded(env) && IsJson(v) && forall i :: 0 <= i < |objects| ==> Plain(objects[i])
    requires forall i: nat :: Chosen(objects, i) ==> MapsBack(objects, i)
    ensures ComesBack(env, v, Union(Members(objects)))
  {
    hide Transform, TransformUnion, Plain, Names, Fills, Shown, Guarded, IsJson;
    var typ := Union(Members(objects));
    UnionIs(env, Casting, v, Members(objects));
    JsonObject(v);
    if !v.Obj? {
      OnlyObjectsFit(env, Casting, v, objects);
    } else {
      UnionTakesFirst(env, Casting, v, objects);
      var i := FirstFit(Casting, objects, v.fields.Keys);
      if i < |objects| {
        PlainTransform(env, Casting, v, objects[i]);
        assert Chosen(objects, i);
        var w := Cast(env, v, typ).value;
        RenamedKeys(Casting, Uncasting, objects[i], v, w);
        UnionIs(env, Uncasting, w, Members(objects));
        UnionTakesFirst(env, Uncasting, w, objects);
        var j := FirstFit(Uncasting, objects, w.fields.Keys);
        PlainTransform(env, Uncasting, w, objects[j]);
        var r := Uncast(env, w, typ).value;
        ThereAndBack(objects[i], objects[j], v, w, r);
        FillsShows(v, r);
        JsonShowsItself(v);
      }
    }
  }

  lemma JsonObject(v: Val)
    requires IsJson(v)
    ensures IsObject(v) <==> v.Obj?
  {
  }

  // ----- and when it does not -----

  function Position(props: seq<Prop>, json: string): (i: nat)
    requires json in Names(Casting, props)
    ensures i < |props| && props[i].json == json
  {
    if props[0].json == json then 0
    else
      assert props == [props[0]] + props[1..];
      1 + Position(props[1..], json)
  }

  /** An object with all the json names of a member, and different values. */
  function Full(props: seq<Prop>): Val {
    Obj(map x | x in Names(Casting, props) :: Num(Position(props, x) as real))
  }

  lemma FullIsJson(props: seq<Prop>)
    ensures Full(props).Obj? && IsJson(Full(props)) && Full(props).fields.Keys == Names(Casting, props)
    ensures var fields := Full(props).fields;
      forall x, y :: x in fields && y in fields && fields[x] == fields[y] ==> x == y
  {
    hide Names;
    forall x, y | x in Full(props).fields && y in Full(props).fields && Full(props).fields[x] == Full(props).fields[y]
      ensures x == y
    {
      assert Position(props, x) == Position(props, y);
    }
  }

  lemma ShownField(r: Val, key: string)
    requires r.Obj? && key in r.fields && r.fields[key].Num?
    ensures Shown(r).Obj? && key in Shown(r).fields && Shown(r).fields[key] == r.fields[key]
  {
  }

  lemma FullIsJsonOf(objects: seq<seq<Prop>>, i: nat)
    requires Chosen(objects, i)
    ensures i < |objects| && IsJson(Full(objects[i]))
  {
    FullIsJson(objects[i]);
  }

  /** If its full object comes back, the member maps back. */
  lemma FullComesBack(env: Types, objects: seq<seq<Prop>>, i: nat)
    requires Guarded(env) && (forall k :: 0 <= k < |objects| ==> Plain(objects[k])) && Chosen(objects, i)
    requires ComesBack(env, Full(objects[i]), Union(Members(objects)))
    ensures MapsBack(objects, i)
  {
    hide Transform, TransformUnion, Plain, Names, Shown, Guarded, IsJson, Full, Members;
    var typ, v := Union(Members(objects)), Full(objects[i]);
    FullIsJson(objects[i]);
    UnionIs(env, Casting, v, Members(objects));
    UnionTakesFirst(env, Casting, v, objects);
    assert FirstFit(Casting, objects, v.fields.Keys) == i;
    PlainTransform(env, Casting, v, objects[i]);
    var w := Cast(env, v, typ).value;
    RenamedKeys(Casting, Uncasting, objects[i], v, w);
    UnionIs(env, Uncasting, w, Members(objects));
    UnionTakesFirst(env, Uncasting, w, objects);
    var j := FirstFit(Uncasting, objects, w.fields.Keys);
    assert j <= i;
    PlainTransform(env, Uncasting, w, objects[j]);
    var r := Uncast(env, w, typ).value;
    forall p | p in objects[i] ensures exists q :: q in objects[j] && q.js == p.js && q.json == p.json {
      FieldBack(objects[i], objects[j], v, w, r, p);
    }
  }

  lemma FieldBack(there: seq<Prop>, back: seq<Prop>, v: Val, w: Val, r: Val, p: Prop)
    requires v == Full(there) && Renamed(Casting, there, v, w) && Renamed(Uncasting, back, w, r)
    requires p in there && w.fields.Keys <= Names(Uncasting, back) && Shown(r) == v
    ensures exists q :: q in back && q.js == p.js && q.json == p.json
  {
    hide Shown;
    FullIsJson(there);
    assert p.json in Names(Casting, there) && v.fields[p.json].Num?;
    assert w.fields[p.js] == v.fields[p.json];
    assert p.js in Names(Uncasting, back);
    var q :| q in back && q.js == p.js;
    ShownField(r, q.json);
  }

  /** Through a union of object types that restrict no property every JSON value comes back if and only if each
      member that an object can fit first is mapped back by the first member that has its js names. */
  lemma UnionComesBackIff(env: Types, objects: seq<seq<Prop>>)
    requires Guarded(env) && forall i :: 0 <= i < |objects| ==> Plain(objects[i])
    ensures (forall v :: IsJson(v) ==> ComesBack(env, v, Union(Members(objects))))
      <==> forall i: nat :: Chosen(objects, i) ==> MapsBack(objects, i)
  {
    hide Guarded, Plain, ComesBack, MapsBack, Chosen, IsJson, Full, Members;
    if forall v :: IsJson(v) ==> ComesBack(env, v, Union(Members(objects))) {
      forall i: nat | Chosen(objects, i) ensures MapsBack(objects, i) {
        FullIsJsonOf(objects, i);
        FullComesBack(env, objects, i);
      }
    }
    if forall i: nat :: Chosen(objects, i) ==> MapsBack(objects, i) {
      forall v | IsJson(v) ensures ComesBack(env, v, Union(Members(objects))) { ComesBackThrough(env, objects, v); }
    }
  }

  lemma ShownKeys(v: Val, key: string)
    requires v.Obj? && key in v.fields && !v.fields[key].Undefined?
    ensures Shown(v).Obj? && key in Shown(v).fields
  {
  }

  lemma NamesOfOne(dir: Direction, p: Prop)
    ensures Names(dir, [p]) == {From(dir, p)} && (p.typ == Any ==> Plain([p]))
  {
    assert p in [p];
  }

  /** Of two members the first calls "x" in JavaScript "y", and the second has "y" in both: a value with "y" fits the
      second only, and comes back through the first, as "x". */
  lemma RenamingUnderUnionFails(env: Types) returns (objects: seq<seq<Prop>>, v: Val)
    requires Guarded(env)
    ensures IsJson(v) && !ComesBack(env, v, Union(Members(objects)))
    ensures (forall i :: 0 <= i < |objects| ==> Plain(objects[i])) && Chosen(objects, 1) && !MapsBack(objects, 1)
  {
    hide Transform, TransformUnion, Plain, Shown, Guarded, Members, Names;
    var p, q := Prop("x", "y", Any), Prop("y", "y", Any);
    objects, v := [[p], [q]], Obj(map["y" := Str("s")]);
    NamesOfOne(Casting, p);
    NamesOfOne(Casting, q);
    NamesOfOne(Uncasting, p);
    NamesOfOne(Uncasting, q);
    UnionIs(env, Casting, v, Members(objects));
    UnionTakesFirst(env, Casting, v, objects);
    assert FirstFit(Casting, objects, v.fields.Keys) == 1 by { assert "y" in v.fields && "y" !in Names(Casting, [p]); }
    PlainTransform(env, Casting, v, [q]);
    var typ := Union(Members(objects));
    var w := Cast(env, v, typ).value;
    RenamedKeys(Casting, Uncasting, [q], v, w);
    assert q in [q] && w.fields["y"] == Str("s");
    UnionIs(env, Uncasting, w, Members(objects));
    UnionTakesFirst(env, Uncasting, w, objects);
    PlainTransform(env, Uncasting, w, [p]);
    var r := Uncast(env, w, typ).value;
    assert p in [p] && r.fields["x"] == Str("s");
    ShownKeys(r, "x");
    ChosenButLost(p, q);
  }

  lemma ChosenButLost(p: Prop, q: Prop)
    requires p.json != q.json && p.js == q.js
    ensures Chosen([[p], [q]], 1) && !MapsBack([[p], [q]], 1)
  {
    hide Plain;
    NamesOfOne(Casting, p);
    NamesOfOne(Casting, q);
    NamesOfOne(Uncasting, p);
    NamesOfOne(Uncasting, q);
    var objects := [[p], [q]];
    assert q.json in Names(Casting, [q]) && q.json !in Names(Casting, [p]);
    assert objects[1] == [q] && FirstFit(Uncasting, objects, Names(Uncasting, [q])) == 0;
    assert q in objects[1] && objects[0] == [p];
  }
}
