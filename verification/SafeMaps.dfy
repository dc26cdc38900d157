/** pkg/sys/perf/maps.go, pkg/sys/perf/decoder.go and pkg/sensor/subscription.go: maps that are
    replaced by copies so that readers need no lock. A Go map is an object of its own, so that
    a reader may hold on to one while writers go on. */
module SafeMaps {

  class GoMap<K(==), V> {
    var m: map<K, V>

    constructor ()
      ensures m == map[]
    {
      m := map[];
    }

    method Store(k: K, v: V)
      modifies this
      ensures m == old(m)[k := v]
    {
      m := m[k := v];
    }

    /** Store every entry of a map, in whatever order it is ranged over. */
    method StoreAll(from: map<K, V>)
      modifies this
      ensures m == old(m) + from
    {
      var left := from.Keys;
      while left != {}
        invariant left <= from.Keys
        invariant m == old(m) + (from - left)
        decreases left
      {
        var k :| k in left;
        left := left - {k};
        assert from - left == (from - left - {k})[k := from[k]];
        m := m[k := from[k]];
      }
      assert from - {} == from;
    }

    method DeleteAll(keys: seq<K>)
      modifies this
      ensures m == old(m) - (set k | k in keys)
    {
      for i := 0 to |keys|
        invariant m == old(m) - (set k | k in keys[..i])
      {
        assert keys[..i + 1] == keys[..i] + [keys[i]];
        m := m - {keys[i]};
      }
      assert keys[..|keys|] == keys;
    }
  }

  datatype Operation<V> = Update(from: map<nat, V>) | Remove(ids: seq<nat>)

  function Apply<V>(m: map<nat, V>, op: Operation<V>): map<nat, V> {
    match op
    case Update(from) => m + from
    case Remove(ids) => m - (set k | k in ids)
  }

  function ApplyAll<V>(m: map<nat, V>, ops: seq<Operation<V>>): map<nat, V> {
    if ops == [] then m else Apply(ApplyAll(m, ops[..|ops| - 1]), ops[|ops| - 1])
  }

  predicate Touches<V>(op: Operation<V>, k: nat) {
    match op
    case Update(from) => k in from
    case Remove(ids) => k in ids
  }

  /** The key was given this value at place i, and no operation since says anything of it. */
  ghost predicate GivenAt<V>(ops: seq<Operation<V>>, k: nat, v: V, i: nat) {
    && i < |ops| && ops[i].Update? && k in ops[i].from && ops[i].from[k] == v
    && forall j :: i < j < |ops| ==> !Touches(ops[j], k)
  }

  /** After any history a key has a value exactly if the last operation that says anything of it gave
      it that one, or it had it and none says anything. */
  lemma {:induction false} LastUpdateCounts<V>(m: map<nat, V>, ops: seq<Operation<V>>, k: nat, v: V)
    ensures var after := ApplyAll(m, ops);
            k in after && after[k] == v
            <==> || (exists i: nat :: GivenAt(ops, k, v, i))
                 || (k in m && m[k] == v && forall j :: 0 <= j < |ops| ==> !Touches(ops[j], k))
    decreases |ops|
  {
    if ops != [] {
      var n := |ops| - 1;
      LastUpdateCounts(m, ops[..n], k, v);
      assert GivenAt(ops, k, v, n) <==> ops[n].Update? && k in ops[n].from && ops[n].from[k] == v;
      assert forall i: nat | i < n :: GivenAt(ops, k, v, i) <==> GivenAt(ops[..n], k, v, i) && !Touches(ops[n], k);
    }
  }

  /** safeUInt64Map and safeEventAttrMap, which differ only in the type of their values. */
  class SafeMap<V> {
    var active: GoMap?<nat, V>

    function Contents(): map<nat, V>
      reads this, active
    {
      if active == null then map[] else active.m
    }

    constructor ()
      ensures active == null
    {
      active := null;
    }

    method GetMap() returns (m: GoMap?<nat, V>)
      ensures m == active
    {
      m := active;
    }

    /** update and remove: the contents change as a plain map's would, in a map that nobody has
        seen; the map that readers have is not among what is modified. */
    method Copying(op: Operation<V>)
      modifies this
      ensures active != null && fresh(active)
      ensures Contents() == Apply(old(Contents()), op)
    {
      var nm := new GoMap<nat, V>();
      if active != null {
        nm.StoreAll(active.m);
      }
      match op {
        case Update(from) => nm.StoreAll(from);
        case Remove(ids) => nm.DeleteAll(ids);
      }
      active := nm;
    }

    /** updateInPlace and removeInPlace: the same change, made to the map that is there. */
    method InPlace(op: Operation<V>)
      modifies this, active
      ensures Contents() == Apply(old(Contents()), op)
      ensures old(active) != null ==> active == old(active)
      ensures old(active) == null && op.Update? ==> active != null && fresh(active)
      ensures old(active) == null && op.Remove? ==> active == null
    {
      match op {
        case Update(from) =>
          if active == null {
            active := new GoMap<nat, V>();
          }
          active.StoreAll(from);
        case Remove(ids) =>
          if active == null {
            return;
          }
          active.DeleteAll(ids);
      }
    }

    /** Any history of copying operations: a map that a reader got before it stays as it was, and
        the contents are those of a plain map after the same history. */
    method CopyingHistory(ops: seq<Operation<V>>) returns (snapshot: GoMap?<nat, V>)
      modifies this
      ensures snapshot == old(active) && (snapshot != null ==> snapshot.m == old(active.m))
      ensures Contents() == ApplyAll(old(Contents()), ops)
    {
      snapshot := GetMap();
      for i := 0 to |ops|
        invariant Contents() == ApplyAll(old(Contents()), ops[..i])
        invariant active == old(active) || fresh(active)
      {
        assert ops[..i + 1][..i] == ops[..i];
        Copying(ops[i]);
      }
      assert ops[..|ops|] == ops;
    }
  }

  // --- Decoders ---

  /** The two tables of a decoderMap. */
  datatype Tables = Tables(decoders: map<nat, string>, names: map<string, nat>)

  /** A decoder is filed under an id exactly when its trace's name is filed with that id. (A
      decoder is represented by the name it was made for.) */
  ghost predicate Bijective(t: Tables) {
    && (forall name :: name in t.names ==> t.names[name] in t.decoders && t.decoders[t.names[name]] == name)
    && (forall id :: id in t.decoders ==> t.decoders[id] in t.names && t.names[t.decoders[id]] == id)
  }

  function Add(t: Tables, name: string, id: nat): Tables {
    Tables(t.decoders[id := name], t.names[name := id])
  }

  function Drop(t: Tables, name: string): Tables {
    if name in t.names then Tables(t.decoders - {t.names[name]}, t.names - {name}) else t
  }

  /** Adding a decoder keeps the tables each other's inverse if and only if neither the name nor
      the id is in use for another. */
  lemma AddKeepsBijective(t: Tables, name: string, id: nat)
    requires Bijective(t)
    ensures Bijective(Add(t, name, id)) <==>
              (name in t.names ==> t.names[name] == id) && (id in t.decoders ==> t.decoders[id] == name)
  {
    var t' := Add(t, name, id);
    if id in t.decoders && t.decoders[id] != name {
      assert t.decoders[id] in t'.names && t'.names[t.decoders[id]] == id;
    } else if name in t.names && t.names[name] != id {
      assert t.names[name] in t'.decoders && t'.decoders[t.names[name]] == name;
    }
  }

  lemma DropKeepsBijective(t: Tables, name: string)
    requires Bijective(t)
    ensures Bijective(Drop(t, name))
  {
  }

  datatype DecoderOperation = AddOf(name: string) | RemoveOf(name: string)

  /** The tables after a history of additions, each with the id that its trace name has, and
      removals. */
  function TablesAfter(ids: map<string, nat>, ops: seq<DecoderOperation>): Tables {
    if ops == [] then Tables(map[], map[])
    else
      var before := TablesAfter(ids, ops[..|ops| - 1]);
      match ops[|ops| - 1]
      case AddOf(name) => if name in ids then Add(before, name, ids[name]) else before
      case RemoveOf(name) => Drop(before, name)
  }

  /** Names that are different have different ids. */
  ghost predicate IdsAreUnique(ids: map<string, nat>) {
    forall m, n :: m in ids && n in ids && ids[m] == ids[n] ==> m == n
  }

  /** Was the name added at place k, and not removed since? */
  ghost predicate AddedAt(ops: seq<DecoderOperation>, name: string, k: nat) {
    && k < |ops| && ops[k] == AddOf(name)
    && forall j :: k < j < |ops| ==> ops[j] != RemoveOf(name)
  }

  /** With fixed, unique ids, after any history of additions and removals the tables are each
      other's inverse and every entry is of the fixed ids. A name without an id is one that
      newTraceEventDecoder refuses. */
  lemma {:induction false} DecodersStayBijective(ids: map<string, nat>, ops: seq<DecoderOperation>)
    requires IdsAreUnique(ids)
    ensures var t := TablesAfter(ids, ops);
            && Bijective(t)
            && (forall name :: name in t.names ==> name in ids && t.names[name] == ids[name])
    decreases |ops|
  {
    if ops != [] {
      var n := |ops| - 1;
      var t := TablesAfter(ids, ops[..n]);
      DecodersStayBijective(ids, ops[..n]);
      match ops[n] {
        case AddOf(name) =>
          if name in ids {
            AddKeepsBijective(t, name, ids[name]);
          }
        case RemoveOf(name) => DropKeepsBijective(t, name);
      }
    }
  }

  /** And a trace has its decoder if and only if it was added and not removed since. */
  lemma {:induction false} DecodersThereExactly(ids: map<string, nat>, ops: seq<DecoderOperation>, name: string)
    ensures name in TablesAfter(ids, ops).names <==> name in ids && exists k :: AddedAt(ops, name, k)
    decreases |ops|
  {
    if ops != [] {
      DecodersThereExactly(ids, ops[..|ops| - 1], name);
      LastOperation(ops, name);
    }
  }

  lemma LastOperation(ops: seq<DecoderOperation>, name: string)
    requires ops != []
    ensures var n := |ops| - 1;
            (exists k :: AddedAt(ops, name, k))
            <==> ops[n] == AddOf(name) || (ops[n] != RemoveOf(name) && exists k :: AddedAt(ops[..n], name, k))
  {
    var n := |ops| - 1;
    assert ops[n] == AddOf(name) ==> AddedAt(ops, name, n);
    if k: nat :| AddedAt(ops, name, k) {
      assert k < n ==> AddedAt(ops[..n], name, k);
    }
    if k: nat :| AddedAt(ops[..n], name, k) {
      assert ops[n] != RemoveOf(name) ==> AddedAt(ops, name, k);
    }
  }

  class DecoderMap {
    var decoders: GoMap<nat, string>
    var names: GoMap<string, nat>

    function View(): Tables
      reads this, decoders, names
    {
      Tables(decoders.m, names.m)
    }

    constructor ()
      ensures View() == Tables(map[], map[]) && fresh(decoders) && fresh(names)
    {
      decoders := new GoMap<nat, string>();
      names := new GoMap<string, nat>();
    }

    method AddDecoder(name: string, id: nat)
      modifies this
      ensures View() == Add(old(View()), name, id)
      ensures fresh(decoders) && fresh(names)
    {
      var nd := new GoMap<nat, string>();
      var nn := new GoMap<string, nat>();
      nd.StoreAll(decoders.m);
      nn.StoreAll(names.m);
      assert nd.m == decoders.m && nn.m == names.m;
      nd.Store(id, name);
      nn.Store(name, id);
      decoders, names := nd, nn;
    }

    method RemoveDecoder(name: string)
      modifies this
      ensures View() == Drop(old(View()), name)
    {
      if name !in names.m {
        return;
      }
      var id := names.m[name];
      var nd := new GoMap<nat, string>();
      var nn := new GoMap<string, nat>();
      nd.StoreAll(decoders.m - {id});
      nn.StoreAll(names.m - {name});
      decoders, names := nd, nn;
    }
  }

  // --- Subscriptions ---

  datatype Subscription = Subscription(data: nat, unregister: bool)

  class SubscriptionMap {
    var active: map<nat, Subscription>

    constructor ()
      ensures active == map[]
    {
      active := map[];
    }

    /** remove: each key that goes and has an unregister function has it run, once; nothing else
        does. */
    method Remove(from: set<nat>) returns (ran: seq<nat>)
      modifies this
      ensures active == old(active) - from
      ensures forall i, j :: 0 <= i < j < |ran| ==> ran[i] != ran[j]
      ensures forall k :: k in ran <==> k in from && k in old(active) && old(active)[k].unregister
    {
      var r: set<nat> := {};
      var left := active.Keys;
      var nm: map<nat, Subscription> := map[];
      while left != {}
        invariant left <= active.Keys && active == old(active)
        invariant nm == active - left - from
        invariant r == set k | k in active.Keys - left && k in from && active[k].unregister
        decreases left
      {
        var k :| k in left;
        left := left - {k};
        if k !in from {
          nm := nm[k := active[k]];
        } else if active[k].unregister {
          r := r + {k};
        }
      }
      active := nm;
      ran := [];
      ghost var all := r;
      while r != {}
        invariant r <= all
        invariant forall k :: k in ran <==> k in all && k !in r
        invariant forall i, j :: 0 <= i < j < |ran| ==> ran[i] != ran[j]
        decreases r
      {
        var k :| k in r;
        r := r - {k};
        ran := ran + [k];
      }
    }
  }
}
