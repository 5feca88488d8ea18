/**
 The read-replica resolver `getReadReplicas`: the value of one environment
 variable is a comma-separated list of indirection names, each looked up in
 the same environment. Names that are not set are dropped; when nothing is
 left, or the variable itself is not set, the result is absent (`undefined`).
 */
module Replicas {
  import opened Wrappers
  import opened Csv

  /** The process environment: variable names to values. */
  type Env = map<string, string>

  /** The values of the names that are set in `env`, in the order of the names. */
  function Resolve(env: Env, names: seq<string>): (r: seq<string>)
    ensures |r| <= |names|
    ensures forall i :: 0 <= i < |r| ==> r[i] in env.Values
    decreases |names|
  {
    if names == [] then []
    else (if names[0] in env then [env[names[0]]] else []) + Resolve(env, names[1..])
  }

  /** None of the names is set in `env`. */
  predicate NoneSet(env: Env, names: seq<string>)
  {
    forall i :: 0 <= i < |names| ==> names[i] !in env
  }

  /** Nothing is resolved exactly when none of the names is set. */
  lemma {:induction false} ResolveEmpty(env: Env, names: seq<string>)
    ensures Resolve(env, names) == [] <==> NoneSet(env, names)
    decreases |names|
  {
    if names != [] {
      ResolveEmpty(env, names[1..]);
      assert forall i :: 1 <= i < |names| ==> names[i] == names[1..][i - 1];
    }
  }

  /** Resolution keeps order: resolving `a` then `b` is resolving `a + b`. */
  lemma {:induction false} ResolveConcat(env: Env, a: seq<string>, b: seq<string>)
    ensures Resolve(env, a + b) == Resolve(env, a) + Resolve(env, b)
    decreases |a|
  {
    if a == [] {
      assert a + b == b;
    } else {
      assert (a + b)[0] == a[0];
      assert (a + b)[1..] == a[1..] + b;
      ResolveConcat(env, a[1..], b);
    }
  }

  /** When every name is set, each resolves, in place, to its value. */
  lemma {:induction false} ResolveAllSet(env: Env, names: seq<string>)
    requires forall i :: 0 <= i < |names| ==> names[i] in env
    ensures |Resolve(env, names)| == |names|
    ensures forall i :: 0 <= i < |names| ==> Resolve(env, names)[i] == env[names[i]]
    decreases |names|
  {
    if names != [] {
      ResolveAllSet(env, names[1..]);
    }
  }

  /** The indirection names listed in the variable `key` (which must be set). */
  function Names(env: Env, key: string): seq<string>
    requires key in env
  {
    CsvToArray(Str(env[key]))
  }

  /** `getReadReplicas`: the resolved replica values, or `None` when there are none. */
  function GetReadReplicas(env: Env, key: string): (r: Option<seq<string>>)
    ensures key !in env ==> r == None
    ensures key in env ==> (r == None <==> NoneSet(env, Names(env, key)))
    ensures r.Some? ==> key in env && r.value == Resolve(env, Names(env, key))
    ensures r.Some? ==> r.value != [] && forall i :: 0 <= i < |r.value| ==> r.value[i] in env.Values
  {
    if key !in env then None
    else
      var names := Names(env, key);
      ResolveEmpty(env, names);
      var values := Resolve(env, names);
      if values == [] then None else Some(values)
  }

  /**
   Order is kept across the list: when the variable holds `a,b`, the replicas
   are those named in `a` followed by those named in `b`, whichever of the two
   parts holds the names that are set.
   */
  lemma ReplicasInOrder(env: Env, key: string, a: string, b: string)
    requires key in env && env[key] == a + "," + b
    requires !NoneSet(env, CsvToArray(Str(a))) || !NoneSet(env, CsvToArray(Str(b)))
    ensures GetReadReplicas(env, key) == Some(Resolve(env, CsvToArray(Str(a))) + Resolve(env, CsvToArray(Str(b))))
  {
    CsvConcat(a, b);
    ResolveConcat(env, CsvToArray(Str(a)), CsvToArray(Str(b)));
    ResolveEmpty(env, CsvToArray(Str(a)));
    ResolveEmpty(env, CsvToArray(Str(b)));
  }

  /**
   Names that are not set are dropped without affecting the others: when the
   variable holds `a,b,c` and no name in `b` is set, the replicas are those of
   `a` followed by those of `c`, and there are none when neither has any.
   */
  lemma ReplicasDropUnset(env: Env, key: string, a: string, b: string, c: string)
    requires key in env && env[key] == a + "," + b + "," + c
    requires NoneSet(env, CsvToArray(Str(b)))
    ensures GetReadReplicas(env, key) ==
      (if NoneSet(env, CsvToArray(Str(a))) && NoneSet(env, CsvToArray(Str(c))) then None
       else Some(Resolve(env, CsvToArray(Str(a))) + Resolve(env, CsvToArray(Str(c)))))
  {
    var na, nb, nc := CsvToArray(Str(a)), CsvToArray(Str(b)), CsvToArray(Str(c));
    CsvConcat(a + "," + b, c);
    CsvConcat(a, b);
    ResolveConcat(env, na + nb, nc);
    ResolveConcat(env, na, nb);
    ResolveEmpty(env, na);
    ResolveEmpty(env, nb);
    ResolveEmpty(env, nc);
    assert Resolve(env, na) + [] == Resolve(env, na);
  }
}
