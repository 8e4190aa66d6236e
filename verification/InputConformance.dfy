/** What it means that validation reports nothing. */
module InputConformance {
  import opened Json
  import opened Options
  import opened InputDefaults

  /** The name of the type a value has; null has none. */
  function TypeName(v: Value): Option<string> {
    match v
    case Null => None
    case Bool(_) => Some("boolean")
    case Number(_) => Some("number")
    case Str(_) => Some("string")
    case Arr(_) => Some("array")
    case Obj(_) => Some("object")
  }

  lemma TypeNameMatches(kind: string, v: Value)
    ensures MatchesType(kind, v) <==> TypeName(v) == Some(kind)
  {
  }

  /** The value has the declared type and choice, nothing required is missing, and every declared part conforms. */
  ghost predicate Conforms(s: Schema, v: Value)
    decreases s
  {
    && TypeName(v) == Some(s.kind) && (v in s.choices || s.choices == [])
    && (v.Obj? ==>
          && (forall key :: key in s.required ==> key in v.fields)
          && forall name :: name in s.properties && name in v.fields ==> Conforms(s.properties[name], v.fields[name]))
    && (v.Arr? && s.items.Some? ==> forall item :: item in v.items ==> Conforms(s.items.value, item))
  }

  lemma {:induction false} ConformingReportsNothing(s: Schema, v: Value, p: Problem)
    requires Conforms(s, v)
    ensures !Reports(s, v, p)
    decreases s
  {
    TypeNameMatches(s.kind, v);
    if Reports(s, v, p) {
      if p.path[0].Key? {
        ConformingReportsNothing(s.properties[p.path[0].name], v.fields[p.path[0].name], Tail(p));
      } else {
        ConformingReportsNothing(s.items.value, v.items[p.path[0].i], Tail(p));
      }
    }
  }

  lemma TailOfPrefixed(step: PathStep, p: Problem)
    ensures Prefixed(step, p).path == [step] + p.path && Tail(Prefixed(step, p)) == p
  {
    assert ([step] + p.path)[1..] == p.path;
  }

  /** Whatever does not conform has a reported problem. */
  lemma {:induction false} NonconformingIsReported(s: Schema, v: Value) returns (p: Problem)
    requires !Conforms(s, v)
    ensures Reports(s, v, p)
    decreases s
  {
    TypeNameMatches(s.kind, v);
    if !MatchesType(s.kind, v) {
      p := WrongType([]);
    } else if s.choices != [] && v !in s.choices {
      p := NotAllowed([]);
    } else if v.Obj? && exists key :: key in s.required && key !in v.fields {
      var key :| key in s.required && key !in v.fields;
      p := Missing([], key);
    } else if v.Obj? {
      var name :| name in s.properties && name in v.fields && !Conforms(s.properties[name], v.fields[name]);
      var inner := NonconformingIsReported(s.properties[name], v.fields[name]);
      p := Prefixed(Key(name), inner);
      TailOfPrefixed(Key(name), inner);
    } else {
      var item :| item in v.items && !Conforms(s.items.value, item);
      var i :| 0 <= i < |v.items| && v.items[i] == item;
      var inner := NonconformingIsReported(s.items.value, item);
      p := Prefixed(Index(i), inner);
      TailOfPrefixed(Index(i), inner);
    }
  }

  ghost predicate Reported(s: Schema, v: Value, p: Problem) {
    Reports(s, v, p)
  }

  /** Validation reports nothing exactly for a value that conforms. */
  lemma AcceptedExactly(s: Schema, v: Value)
    ensures Conforms(s, v) <==> forall p :: !Reported(s, v, p)
  {
    if Conforms(s, v) {
      forall p
        ensures !Reported(s, v, p)
      {
        ConformingReportsNothing(s, v, p);
      }
    } else {
      var p := NonconformingIsReported(s, v);
      assert Reported(s, v, p);
    }
  }
}
