/** The field-keyed error maps shared by every validator in the service:
    `AddError` keeps the first message recorded for a key. */
module ErrorMaps {

  /** The map after `AddError(key, message)`: the key is present afterwards,
      every message already recorded (including one under `key`) survives,
      and `message` is stored only when the key was absent. */
  function WithFirst(m: map<string, string>, key: string, message: string): (r: map<string, string>)
    ensures r.Keys == m.Keys + {key}
    ensures forall k :: k in m ==> r[k] == m[k]
    ensures key !in m ==> r[key] == message
  {
    if key in m then m else m[key := message]
  }

  /** The map obtained by calling `AddError` on each pair in order,
      starting from an empty map. */
  function Collect(entries: seq<(string, string)>): map<string, string>
  {
    if |entries| == 0 then map[]
    else
      var last := entries[|entries| - 1];
      WithFirst(Collect(entries[..|entries| - 1]), last.0, last.1)
  }

  /** The keys of the collected map are exactly the keys offered. */
  lemma {:induction false} CollectKeys(entries: seq<(string, string)>)
    ensures forall k :: k in Collect(entries) <==> exists i :: 0 <= i < |entries| && entries[i].0 == k
  {
    if |entries| > 0 {
      var n := |entries|;
      var init := entries[..n - 1];
      CollectKeys(init);
      forall k | k in Collect(entries)
        ensures exists i :: 0 <= i < n && entries[i].0 == k
      {
        if k in Collect(init) {
          var i :| 0 <= i < |init| && init[i].0 == k;
          assert entries[i] == init[i];
        } else {
          assert entries[n - 1].0 == k;
        }
      }
      forall k | exists i :: 0 <= i < n && entries[i].0 == k
        ensures k in Collect(entries)
      {
        var i :| 0 <= i < n && entries[i].0 == k;
        if i < n - 1 {
          assert init[i] == entries[i];
        }
      }
    }
  }

  /** Each key carries the message of its first occurrence: a later
      `AddError` for the same key changes nothing. */
  lemma {:induction false} CollectFirstWins(entries: seq<(string, string)>, i: nat)
    requires i < |entries|
    requires forall j :: 0 <= j < i ==> entries[j].0 != entries[i].0
    ensures entries[i].0 in Collect(entries) && Collect(entries)[entries[i].0] == entries[i].1
  {
    var n := |entries|;
    var init, last := entries[..n - 1], entries[n - 1];
    if i < n - 1 {
      assert init[i] == entries[i];
      forall j | 0 <= j < i ensures init[j].0 != init[i].0 {
        assert init[j] == entries[j];
      }
      CollectFirstWins(init, i);
    } else {
      CollectKeys(init);
      forall j | 0 <= j < |init| ensures init[j].0 != last.0 {
        assert init[j] == entries[j];
      }
    }
  }
}
