/** Declared-input schemas: resolving defaults before a run, and the validator that follows. */
module InputDefaults {
  import opened Json
  import opened Options

  /** Default distinguishes an absent default from an explicit null. */
  datatype Schema = Schema(kind: string, properties: map<string, Schema>, required: seq<string>,
                           items: Option<Schema>, choices: seq<Value>, default: Option<Value>)

  function Lookup(fields: map<string, Value>, key: string): Option<Value> {
    if key in fields then Some(fields[key]) else None
  }

  /** A supplied value, or the declared default of an absent one. */
  function Base(s: Schema, v: Option<Value>): Option<Value> {
    if v.None? then s.default else v
  }

  /** The resolved value of a field that may be absent, independent of the order properties are visited in. */
  function Resolved(s: Schema, v: Option<Value>): Option<Value>
    decreases s, 1
  {
    var base := Base(s, v);
    if s.kind != "object" || (base.Some? && !base.value.Obj?) then base
    else
      var filled := Filled(s, if base.Some? then base.value.fields else map[]);
      if base.None? && filled == map[] then None else Some(Obj(filled))
  }

  function Filled(s: Schema, fields: map<string, Value>): map<string, Value>
    decreases s, 0
  {
    map k | k in fields.Keys + s.properties.Keys && (k in s.properties ==> Resolved(s.properties[k], Lookup(fields, k)).Some?)
        :: if k in s.properties then Resolved(s.properties[k], Lookup(fields, k)).value else fields[k]
  }

  /** Visits the properties one by one, in any order, updating a fresh copy. */
  method ApplyDefaults(s: Schema, v: Option<Value>) returns (resolved: Option<Value>)
    ensures resolved == Resolved(s, v)
    decreases s
  {
    if s.kind != "object" {
      return Base(s, v);
    }
    var base := Base(s, v);
    if base.Some? && !base.value.Obj? {
      return base;
    }
    var fields := if base.Some? then base.value.fields else map[];
    var filled, rest := fields, s.properties.Keys;
    while rest != {}
      invariant rest <= s.properties.Keys
      invariant forall k :: k in rest || k !in s.properties ==> Lookup(filled, k) == Lookup(fields, k)
      invariant forall k :: k in s.properties && k !in rest ==>
                  Lookup(filled, k) == Resolved(s.properties[k], Lookup(fields, k))
      decreases rest
    {
      var key :| key in rest;
      var child := ApplyDefaults(s.properties[key], Lookup(filled, key));
      if child.Some? {
        filled := filled[key := child.value];
      }
      rest := rest - {key};
    }
    FilledIs(s, fields, filled);
    if base.None? && filled == map[] {
      return None;
    }
    return Some(Obj(filled));
  }

  lemma FilledIs(s: Schema, fields: map<string, Value>, filled: map<string, Value>)
    requires forall k :: k !in s.properties ==> Lookup(filled, k) == Lookup(fields, k)
    requires forall k :: k in s.properties ==> Lookup(filled, k) == Resolved(s.properties[k], Lookup(fields, k))
    ensures filled == Filled(s, fields)
  {
    forall k
      ensures k in filled <==> k in Filled(s, fields)
      ensures k in filled ==> filled[k] == Filled(s, fields)[k]
    {
      assert Lookup(filled, k).Some? <==> k in filled;
      assert k !in s.properties ==> Lookup(filled, k) == Lookup(fields, k);
    }
  }

  lemma FilledLookup(s: Schema, fields: map<string, Value>, k: string)
    ensures Lookup(Filled(s, fields), k) ==
            if k in s.properties then Resolved(s.properties[k], Lookup(fields, k)) else Lookup(fields, k)
  {
    if k in s.properties && k in fields {
      SuppliedStaysPresent(s.properties[k], fields[k]);
    }
  }

  lemma SuppliedStaysPresent(s: Schema, v: Value)
    ensures Resolved(s, Some(v)).Some?
  {
  }

  /** The run-start entry point treats a null payload as absent. */
  function ApplyInputDefaults(s: Schema, v: Value): Value {
    var r := Resolved(s, if v == Null then None else Some(v));
    if r.None? then Null else r.value
  }

  /** Resolving a resolved value changes nothing. */
  lemma {:induction false} ResolvedIsFixed(s: Schema, v: Option<Value>)
    requires Resolved(s, v).Some?
    ensures Resolved(s, Resolved(s, v)) == Resolved(s, v)
    decreases s
  {
    var base := Base(s, v);
    if s.kind == "object" && (base.None? || base.value.Obj?) {
      var fields := if base.Some? then base.value.fields else map[];
      var filled := Filled(s, fields);
      forall k
        ensures Lookup(Filled(s, filled), k) == Lookup(filled, k)
      {
        FilledLookup(s, fields, k);
        FilledLookup(s, filled, k);
        if k in s.properties && Resolved(s.properties[k], Lookup(fields, k)).Some? {
          ResolvedIsFixed(s.properties[k], Lookup(fields, k));
        } else if k in s.properties {
          AbsentWasAbsent(s.properties[k], Lookup(fields, k));
        }
      }
      SameLookups(Filled(s, filled), filled);
    }
  }

  lemma AbsentWasAbsent(s: Schema, v: Option<Value>)
    requires Resolved(s, v).None?
    ensures v.None?
  {
    if v.Some? {
      SuppliedStaysPresent(s, v.value);
    }
  }

  lemma SameLookups(a: map<string, Value>, b: map<string, Value>)
    requires forall k :: Lookup(a, k) == Lookup(b, k)
    ensures a == b
  {
    forall k
      ensures k in a <==> k in b
      ensures k in a ==> a[k] == b[k]
    {
      assert Lookup(a, k) == Lookup(b, k);
    }
  }

  /** Applying the defaults twice is applying them once. */
  lemma DefaultsIdempotent(s: Schema, v: Value)
    ensures ApplyInputDefaults(s, ApplyInputDefaults(s, v)) == ApplyInputDefaults(s, v)
  {
    var start := if v == Null then None else Some(v);
    if Resolved(s, start).Some? {
      ResolvedIsFixed(s, start);
    }
  }

  /** `after` has everything `before` has: equal, or an object that keeps every field, deeply. */
  ghost predicate Extends(before: Value, after: Value) {
    before == after ||
    (before.Obj? && after.Obj? &&
     forall k :: k in before.fields ==> k in after.fields && Extends(before.fields[k], after.fields[k]))
  }

  /** No supplied leaf or undeclared key is dropped or altered, at any depth. */
  lemma {:induction false} DefaultsOnlyAdd(s: Schema, v: Value)
    ensures Resolved(s, Some(v)).Some? && Extends(v, Resolved(s, Some(v)).value)
    decreases s
  {
    if s.kind == "object" && v.Obj? {
      var filled := Filled(s, v.fields);
      forall k | k in v.fields
        ensures k in filled && Extends(v.fields[k], filled[k])
      {
        FilledLookup(s, v.fields, k);
        if k in s.properties {
          DefaultsOnlyAdd(s.properties[k], v.fields[k]);
        }
      }
    }
  }

  // ----- what a resolved value holds at every place

  /** The value a path of property names leads to. */
  function ValueAt(v: Value, names: seq<string>): Option<Value>
    decreases |names|
  {
    if names == [] then Some(v)
    else if v.Obj? && names[0] in v.fields then ValueAt(v.fields[names[0]], names[1..])
    else None
  }

  /** The schema declared for a path of property names through object schemas. */
  function DeclaredAt(s: Schema, names: seq<string>): Option<Schema>
    decreases |names|
  {
    if names == [] then Some(s)
    else if s.kind == "object" && names[0] in s.properties then DeclaredAt(s.properties[names[0]], names[1..])
    else None
  }

  ghost predicate ObjectAt(v: Value, names: seq<string>) {
    ValueAt(v, names).Some? && ValueAt(v, names).value.Obj?
  }

  lemma {:induction false} ResolvedAt(s: Schema, v: Value, names: seq<string>, key: string)
    requires ObjectAt(v, names) && DeclaredAt(s, names + [key]).Some?
    ensures Resolved(s, Some(v)).Some?
    ensures ValueAt(Resolved(s, Some(v)).value, names + [key]) ==
            Resolved(DeclaredAt(s, names + [key]).value, ValueAt(v, names + [key]))
    decreases |names|
  {
    var path := names + [key];
    var next, filled := path[0], Filled(s, v.fields);
    FilledLookup(s, v.fields, next);
    if names == [] {
      assert path[1..] == [];
    } else {
      assert path[1..] == names[1..] + [key];
      ResolvedAt(s.properties[next], v.fields[next], names[1..], key);
    }
  }

  /** In a supplied object at any depth, an absent property gets its declared default and a supplied one its own value. */
  lemma DefaultFilledIn(s: Schema, v: Value, names: seq<string>, key: string)
    requires ObjectAt(v, names) && DeclaredAt(s, names + [key]).Some?
    ensures var declared := DeclaredAt(s, names + [key]).value;
            var before, after := ValueAt(v, names + [key]), ValueAt(ApplyInputDefaults(s, v), names + [key]);
            && (declared.kind != "object" && before.None? ==> after == declared.default)
            && (declared.kind != "object" && before.Some? ==> after == before)
  {
    ResolvedAt(s, v, names, key);
    assert v != Null;
  }

  /** An absent value resolves like its default; without one, like an empty object that some property default fills. */
  lemma AbsentLikeDefault(s: Schema)
    ensures s.default.Some? ==> Resolved(s, None) == Resolved(s, s.default)
    ensures s.default.None? ==>
              Resolved(s, None) == var empty := Some(Obj(map[]));
                                   if s.kind == "object" && Resolved(s, empty) != empty then Resolved(s, empty) else None
  {
  }

  // ----- validation after defaulting

  datatype PathStep = Key(name: string) | Index(i: nat)

  datatype Problem =
    | WrongType(path: seq<PathStep>)
    | NotAllowed(path: seq<PathStep>)
    | Missing(path: seq<PathStep>, key: string)

  predicate MatchesType(kind: string, v: Value) {
    || (kind == "string" && v.Str?) || (kind == "number" && v.Number?) || (kind == "boolean" && v.Bool?)
    || (kind == "object" && v.Obj?) || (kind == "array" && v.Arr?)
  }

  /** Every violation, with the path it is reported at relative to the value. */
  ghost predicate Reports(s: Schema, v: Value, problem: Problem)
    decreases s
  {
    if !MatchesType(s.kind, v) then problem == WrongType([])
    else
      || (s.choices != [] && v !in s.choices && problem == NotAllowed([]))
      || (s.kind == "object" && problem.Missing? && problem.path == []
          && problem.key in s.required && problem.key !in v.fields)
      || (s.kind == "object" && problem.path != [] && problem.path[0].Key?
          && problem.path[0].name in s.properties && problem.path[0].name in v.fields
          && Reports(s.properties[problem.path[0].name], v.fields[problem.path[0].name], Tail(problem)))
      || (s.kind == "array" && s.items.Some? && problem.path != [] && problem.path[0].Index?
          && problem.path[0].i < |v.items|
          && Reports(s.items.value, v.items[problem.path[0].i], Tail(problem)))
  }

  function Tail(p: Problem): Problem
    requires p.path != []
  {
    match p
    case WrongType(path) => WrongType(path[1..])
    case NotAllowed(path) => NotAllowed(path[1..])
    case Missing(path, key) => Missing(path[1..], key)
  }

  function Prefixed(step: PathStep, p: Problem): Problem {
    match p
    case WrongType(path) => WrongType([step] + path)
    case NotAllowed(path) => NotAllowed([step] + path)
    case Missing(path, key) => Missing([step] + path, key)
  }

  /** `outer` are the problems `inner` of a component, with paths that start at its container. */
  ghost predicate Lifted(step: PathStep, inner: seq<Problem>, outer: seq<Problem>) {
    forall p :: p in outer <==> p.path != [] && p.path[0] == step && Tail(p) in inner
  }

  method Lift(step: PathStep, inner: seq<Problem>) returns (outer: seq<Problem>)
    ensures Lifted(step, inner, outer)
  {
    outer := [];
    for i := 0 to |inner|
      invariant Lifted(step, inner[..i], outer)
    {
      assert inner[..i + 1] == inner[..i] + [inner[i]];
      var p := Prefixed(step, inner[i]);
      assert p.path[1..] == inner[i].path;
      assert forall q: Problem :: q.path != [] && q.path[0] == step ==> q.path == [step] + q.path[1..];
      outer := outer + [p];
    }
    assert inner[..|inner|] == inner;
  }

  ghost predicate MissingReported(fields: map<string, Value>, keys: seq<string>, p: Problem) {
    p.Missing? && p.path == [] && p.key in keys && p.key !in fields
  }

  /** A problem of a supplied property among `names`. */
  ghost predicate PropertyReported(s: Schema, fields: map<string, Value>, names: set<string>, p: Problem) {
    p.path != [] && p.path[0].Key? && p.path[0].name in names && p.path[0].name in s.properties && p.path[0].name in fields
    && Reports(s.properties[p.path[0].name], fields[p.path[0].name], Tail(p))
  }

  /** A problem of one of the first `count` items. */
  ghost predicate ItemReported(item: Schema, items: seq<Value>, count: nat, p: Problem)
    requires count <= |items|
  {
    p.path != [] && p.path[0].Index? && p.path[0].i < count && Reports(item, items[p.path[0].i], Tail(p))
  }

  method MissingKeys(s: Schema, fields: map<string, Value>) returns (errs: seq<Problem>)
    ensures forall p :: p in errs <==> MissingReported(fields, s.required, p)
  {
    errs := [];
    for i := 0 to |s.required|
      invariant forall p :: p in errs <==> MissingReported(fields, s.required[..i], p)
    {
      assert s.required[..i + 1] == s.required[..i] + [s.required[i]];
      if s.required[i] !in fields {
        errs := errs + [Missing([], s.required[i])];
      }
    }
    assert s.required[..|s.required|] == s.required;
  }

  method WalkProperties(s: Schema, fields: map<string, Value>) returns (errs: seq<Problem>)
    ensures forall p :: p in errs <==> PropertyReported(s, fields, s.properties.Keys, p)
    decreases s, 0
  {
    errs := [];
    var todo := s.properties.Keys;
    while todo != {}
      invariant todo <= s.properties.Keys
      invariant forall p :: p in errs <==> PropertyReported(s, fields, s.properties.Keys - todo, p)
      decreases todo
    {
      var name :| name in todo;
      todo := todo - {name};
      if name in fields {
        var inner := ValidateInputValue(s.properties[name], fields[name]);
        var lifted := Lift(Key(name), inner);
        errs := errs + lifted;
      }
    }
  }

  method WalkItems(item: Schema, items: seq<Value>) returns (errs: seq<Problem>)
    ensures forall p :: p in errs <==> ItemReported(item, items, |items|, p)
    decreases item, 2
  {
    errs := [];
    for i := 0 to |items|
      invariant forall p :: p in errs <==> ItemReported(item, items, i, p)
    {
      var inner := ValidateInputValue(item, items[i]);
      var lifted := Lift(Index(i), inner);
      errs := errs + lifted;
    }
  }

  /** Collects every violation in one walk and reports nothing else. */
  method ValidateInputValue(s: Schema, v: Value) returns (errs: seq<Problem>)
    ensures forall p :: p in errs <==> Reports(s, v, p)
    decreases s, 1
  {
    if !MatchesType(s.kind, v) {
      return [WrongType([])];
    }
    errs := if s.choices != [] && v !in s.choices then [NotAllowed([])] else [];
    if s.kind == "object" {
      var missing := MissingKeys(s, v.fields);
      var inner := WalkProperties(s, v.fields);
      errs := errs + missing + inner;
    }
    if s.kind == "array" && s.items.Some? {
      var inner := WalkItems(s.items.value, v.items);
      errs := errs + inner;
    }
  }

  /** The schema a path of property names leads to. */
  function SchemaAt(s: Schema, path: seq<PathStep>): Option<Schema>
    decreases |path|
  {
    if path == [] then Some(s)
    else if path[0].Key? && path[0].name in s.properties then SchemaAt(s.properties[path[0].name], path[1..])
    else None
  }

  ghost predicate DeclaresDefault(s: Schema, path: seq<PathStep>, key: string) {
    var at := SchemaAt(s, path);
    at.Some? && key in at.value.properties && at.value.properties[key].default.Some?
  }

  /** A property with a declared default is present in every present object that defaulting reaches. */
  lemma DefaultedPropertyPresent(s: Schema, v: Option<Value>, key: string)
    requires s.kind == "object" && key in s.properties && s.properties[key].default.Some?
    requires Resolved(s, v).Some? && Resolved(s, v).value.Obj?
    ensures key in Resolved(s, v).value.fields
  {
    var base := Base(s, v);
    var fields := if base.Some? then base.value.fields else map[];
    FilledLookup(s, fields, key);
    assert Resolved(s.properties[key], Lookup(fields, key)).Some?;
  }

  /** Validation of a defaulted value never reports such a property missing, along any path of properties. */
  lemma {:induction false} NoDefaultedPropertyMissing(s: Schema, v: Option<Value>, path: seq<PathStep>, key: string)
    requires Resolved(s, v).Some? && Reports(s, Resolved(s, v).value, Missing(path, key))
    ensures !DeclaresDefault(s, path, key)
    decreases |path|
  {
    if DeclaresDefault(s, path, key) && path == [] {
      DefaultedPropertyPresent(s, v, key);
    } else if DeclaresDefault(s, path, key) {
      var name := path[0].name;
      var base := Base(s, v);
      var fields := if base.Some? then base.value.fields else map[];
      FilledLookup(s, fields, name);
      NoDefaultedPropertyMissing(s.properties[name], Lookup(fields, name), path[1..], key);
    }
  }

  /** Items of an array are validated but not defaulted, so there the report can occur. */
  lemma ArrayItemsAreNotDefaulted()
    ensures exists s: Schema, v, key ::
              && s.kind == "array" && s.items.Some? && key in s.items.value.properties
              && s.items.value.properties[key].default.Some?
              && Reports(s, ApplyInputDefaults(s, v), Missing([Index(0)], key))
  {
    var leaf := Schema("string", map[], [], None, [], Some(Str("x")));
    var item := Schema("object", map["a" := leaf], ["a"], None, [], None);
    var s := Schema("array", map[], [], Some(item), [], None);
    var v := Arr([Obj(map[])]);
    assert ApplyInputDefaults(s, v) == v;
    assert Reports(item, v.items[0], Missing([], "a"));
    assert Tail(Missing([Index(0)], "a")) == Missing([], "a");
    assert Reports(s, v, Missing([Index(0)], "a"));
    assert "a" in s.items.value.properties;
  }

  // ----- exactly which schemas let a defaulted property be reported missing

  /** The schema a path of names and indices leads to, as validation follows it. */
  function SchemaAlong(s: Schema, path: seq<PathStep>): Option<Schema>
    decreases |path|
  {
    if path == [] then Some(s)
    else
      match path[0]
      case Key(name) =>
        if s.kind == "object" && name in s.properties then SchemaAlong(s.properties[name], path[1..]) else None
      case Index(_) =>
        if s.kind == "array" && s.items.Some? then SchemaAlong(s.items.value, path[1..]) else None
  }

  ghost predicate DefaultAlong(s: Schema, path: seq<PathStep>, key: string) {
    var at := SchemaAlong(s, path);
    at.Some? && key in at.value.properties && at.value.properties[key].default.Some?
  }

  predicate RequiresDefaulted(s: Schema) {
    s.kind == "object" && exists key :: key in s.required && key in s.properties && s.properties[key].default.Some?
  }

  /** An object schema that requires a defaulted property is reachable. */
  predicate DefaultRequiredBelow(s: Schema) {
    || RequiresDefaulted(s)
    || (s.kind == "object" && exists name :: name in s.properties && DefaultRequiredBelow(s.properties[name]))
    || (s.kind == "array" && s.items.Some? && DefaultRequiredBelow(s.items.value))
  }

  /** Such a schema is reachable behind the items of some array. */
  predicate DefaultRequiredInItems(s: Schema) {
    || (s.kind == "object" && exists name :: name in s.properties && DefaultRequiredInItems(s.properties[name]))
    || (s.kind == "array" && s.items.Some? && DefaultRequiredBelow(s.items.value))
  }

  /** A value whose validation, as it stands, reports a required defaulted property missing. */
  lemma {:induction false} BareWitness(s: Schema) returns (v: Value, path: seq<PathStep>, key: string)
    requires DefaultRequiredBelow(s)
    ensures Reports(s, v, Missing(path, key)) && DefaultAlong(s, path, key)
    decreases s
  {
    if RequiresDefaulted(s) {
      key :| key in s.required && key in s.properties && s.properties[key].default.Some?;
      v, path := Obj(map[]), [];
    } else if s.kind == "object" {
      var name :| name in s.properties && DefaultRequiredBelow(s.properties[name]);
      var inner, rest, k := BareWitness(s.properties[name]);
      v, path, key := Obj(map[name := inner]), [Key(name)] + rest, k;
      assert path[1..] == rest && Tail(Missing(path, key)) == Missing(rest, key);
    } else {
      var inner, rest, k := BareWitness(s.items.value);
      v, path, key := Arr([inner]), [Index(0)] + rest, k;
      assert path[1..] == rest && Tail(Missing(path, key)) == Missing(rest, key);
    }
  }

  /** A value that is still reported after its defaults have been applied. */
  lemma {:induction false} ResolvedWitness(s: Schema) returns (v: Value, path: seq<PathStep>, key: string)
    requires DefaultRequiredInItems(s)
    ensures v.Obj? || v.Arr?
    ensures Resolved(s, Some(v)).Some? && Reports(s, Resolved(s, Some(v)).value, Missing(path, key))
    ensures DefaultAlong(s, path, key)
    decreases s
  {
    if s.kind == "object" {
      var name :| name in s.properties && DefaultRequiredInItems(s.properties[name]);
      var inner, rest, k := ResolvedWitness(s.properties[name]);
      v, path, key := Obj(map[name := inner]), [Key(name)] + rest, k;
      FilledLookup(s, v.fields, name);
      assert Lookup(v.fields, name) == Some(inner);
    } else {
      var inner, rest, k := BareWitness(s.items.value);
      v, path, key := Arr([inner]), [Index(0)] + rest, k;
    }
    assert Tail(Missing(path, key)) == Missing(path[1..], key);
  }

  lemma {:induction false} ReportedIsRequired(s: Schema, v: Value, path: seq<PathStep>, key: string)
    requires Reports(s, v, Missing(path, key)) && DefaultAlong(s, path, key)
    ensures DefaultRequiredBelow(s)
    decreases |path|
  {
    if path != [] {
      assert Tail(Missing(path, key)) == Missing(path[1..], key);
      match path[0]
      case Key(name) => ReportedIsRequired(s.properties[name], v.fields[name], path[1..], key);
      case Index(i) => ReportedIsRequired(s.items.value, v.items[i], path[1..], key);
    }
  }

  lemma {:induction false} ReportedIsInItems(s: Schema, v: Option<Value>, path: seq<PathStep>, key: string)
    requires Resolved(s, v).Some? && Reports(s, Resolved(s, v).value, Missing(path, key)) && DefaultAlong(s, path, key)
    ensures DefaultRequiredInItems(s)
    decreases |path|
  {
    if path == [] {
      DefaultedPropertyPresent(s, v, key);
    } else {
      assert Tail(Missing(path, key)) == Missing(path[1..], key);
      match path[0]
      case Key(name) =>
        var base := Base(s, v);
        var fields := if base.Some? then base.value.fields else map[];
        FilledLookup(s, fields, name);
        ReportedIsInItems(s.properties[name], Lookup(fields, name), path[1..], key);
      case Index(i) =>
        ReportedIsRequired(s.items.value, Resolved(s, v).value.items[i], path[1..], key);
    }
  }

  /**
   * Some value is reported to miss a defaulted property after its defaults were applied, exactly when the schema
   * requires a defaulted property somewhere behind the items of an array.
   */
  lemma DefaultsMissedExactly(s: Schema)
    ensures DefaultRequiredInItems(s) <==>
              exists v, path, key :: Reports(s, ApplyInputDefaults(s, v), Missing(path, key)) && DefaultAlong(s, path, key)
  {
    if DefaultRequiredInItems(s) {
      var v, path, key := ResolvedWitness(s);
      assert ApplyInputDefaults(s, v) == Resolved(s, Some(v)).value;
    }
    forall v, path, key | Reports(s, ApplyInputDefaults(s, v), Missing(path, key)) && DefaultAlong(s, path, key)
      ensures DefaultRequiredInItems(s)
    {
      ReportedIsInItems(s, if v == Null then None else Some(v), path, key);
    }
  }
}
