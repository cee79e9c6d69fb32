/** The `dict` template function: builds a map from alternating keys and
    values. */
module HttpDict {
  import opened LaundryNotify

  /** A template argument: a string, or any other value. */
  datatype Any = Str(s: string) | Other(tag: int)

  /** The even positions hold keys. */
  predicate KeyAt(values: seq<Any>, i: int, key: string) {
    0 <= i < |values| && i % 2 == 0 && values[i] == Str(key)
  }

  predicate KeysAreStrings(values: seq<Any>) {
    forall i :: 0 <= i < |values| && i % 2 == 0 ==> values[i].Str?
  }

  /** The map the loop leaves after the pairs of `values`, assigned left to
      right. */
  function Assigned(values: seq<Any>): map<string, Any>
    requires |values| % 2 == 0 && KeysAreStrings(values)
  {
    if values == [] then map[]
    else
      var n := |values|;
      Assigned(values[..n - 2])[values[n - 2].s := values[n - 1]]
  }

  /** dict: an odd number of arguments, or a key that is not a string, is an
      error and gives no map; otherwise the map of the pairs. */
  method Dict(values: seq<Any>) returns (d: map<string, Any>, err: Option<Error>)
    ensures |values| % 2 != 0 ==> err == Some(FmtError("invalid dict call")) && d == map[]
    ensures |values| % 2 == 0 && !KeysAreStrings(values) ==>
              err == Some(FmtError("dict keys must be strings")) && d == map[]
    ensures |values| % 2 == 0 && KeysAreStrings(values) ==> err.None? && d == Assigned(values)
  {
    if |values| % 2 != 0 {
      return map[], Some(FmtError("invalid dict call"));
    }
    d := map[];
    var i := 0;
    while i < |values|
      invariant 0 <= i <= |values| && i % 2 == 0
      invariant KeysAreStrings(values[..i])
      invariant d == Assigned(values[..i])
    {
      if !values[i].Str? {
        return map[], Some(FmtError("dict keys must be strings"));
      }
      assert values[..i + 2][..i] == values[..i];
      d := d[values[i].s := values[i + 1]];
      i := i + 2;
    }
    assert values[..i] == values;
    err := None;
  }

  /** The arguments before the last pair still have string keys, at the same
      positions. */
  lemma Front(values: seq<Any>)
    requires |values| % 2 == 0 && |values| >= 2 && KeysAreStrings(values)
    ensures var front := values[..|values| - 2];
            && |front| % 2 == 0 && KeysAreStrings(front)
            && (forall i, key :: KeyAt(front, i, key) <==> KeyAt(values, i, key) && i < |values| - 2)
            && (forall i :: 0 <= i < |front| ==> front[i] == values[i])
  {
  }

  /** The keys of the map are exactly the keys given. */
  lemma {:induction false} AssignedKeys(values: seq<Any>)
    requires |values| % 2 == 0 && KeysAreStrings(values)
    ensures forall key :: key in Assigned(values) <==> exists i :: KeyAt(values, i, key)
  {
    if values != [] {
      var n := |values|;
      var front := values[..n - 2];
      Front(values);
      AssignedKeys(front);
      var last := values[n - 2].s;
      assert KeyAt(values, n - 2, last);
      forall key | key != last && (exists i :: KeyAt(values, i, key))
        ensures key in Assigned(front)
      {
        var i :| KeyAt(values, i, key);
        assert KeyAt(front, i, key);
      }
    }
  }

  /** Each key holds the value given after its last occurrence. */
  lemma {:induction false} AssignedLastWins(values: seq<Any>, key: string, i: int)
    requires |values| % 2 == 0 && KeysAreStrings(values)
    requires KeyAt(values, i, key) && forall j :: KeyAt(values, j, key) ==> j <= i
    ensures key in Assigned(values) && Assigned(values)[key] == values[i + 1]
  {
    var n := |values|;
    if i < n - 2 {
      var front := values[..n - 2];
      Front(values);
      assert KeyAt(front, i, key);
      assert !KeyAt(values, n - 2, key);
      AssignedLastWins(front, key, i);
    }
  }

  /** There are at most half as many entries as arguments. */
  lemma {:induction false} AssignedSize(values: seq<Any>)
    requires |values| % 2 == 0 && KeysAreStrings(values)
    ensures |Assigned(values)| <= |values| / 2
  {
    if values != [] {
      var n := |values|;
      Front(values);
      AssignedSize(values[..n - 2]);
      var m := Assigned(values[..n - 2]);
      var last := values[n - 2].s;
      assert m[last := values[n - 1]].Keys == m.Keys + {last};
    }
  }
}
