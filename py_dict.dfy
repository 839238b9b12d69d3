/** The part of Python's `dict` that a dict literal and `list(d.values())`
    use. A dict is kept as its entries in first-insertion order; inserting a
    key that is already present overwrites that entry's value in place. */
module PyDict {

  datatype Dict<V> = Dict(entries: seq<(string, V)>)

  /** No key is written twice. */
  predicate Distinct(ks: seq<string>)
  {
    forall i, j :: 0 <= i < j < |ks| ==> ks[i] != ks[j]
  }

  /** The keys of a sequence of `key: value` items, in order. */
  function KeysOf<V>(items: seq<(string, V)>): (r: seq<string>)
    ensures |r| == |items|
    ensures forall i :: 0 <= i < |items| ==> r[i] == items[i].0
  {
    seq(|items|, i requires 0 <= i < |items| => items[i].0)
  }

  /** The position of the entry with key `k`, or `|entries|` when there is none. */
  function Find<V>(entries: seq<(string, V)>, k: string): (i: nat)
    ensures i <= |entries|
    ensures i < |entries| ==> entries[i].0 == k
    ensures forall j :: 0 <= j < i ==> entries[j].0 != k
    decreases |entries|
  {
    if entries == [] then 0
    else if entries[0].0 == k then 0
    else 1 + Find(entries[1..], k)
  }

  /** `d[k] = v`. */
  function Insert<V>(d: Dict<V>, k: string, v: V): (r: Dict<V>)
    ensures Find(r.entries, k) < |r.entries| && r.entries[Find(r.entries, k)] == (k, v)
    ensures |r.entries| == if Find(d.entries, k) < |d.entries| then |d.entries| else |d.entries| + 1
    ensures forall i :: 0 <= i < |d.entries| && d.entries[i].0 != k ==> r.entries[i] == d.entries[i]
  {
    var i := Find(d.entries, k);
    if i < |d.entries| then
      var e := d.entries[i := (k, v)];
      assert e[i].0 == k;
      assert forall j :: 0 <= j < i ==> e[j] == d.entries[j];
      Dict(e)
    else
      var e := d.entries + [(k, v)];
      assert e[i].0 == k;
      Dict(e)
  }

  /** The dict a literal `{k0: v0, k1: v1, ...}` evaluates to: the items inserted in order. */
  function FromLiteral<V>(items: seq<(string, V)>): (r: Dict<V>)
    ensures |r.entries| <= |items|
    ensures items != [] ==> var last := items[|items| - 1];
      Find(r.entries, last.0) < |r.entries| && r.entries[Find(r.entries, last.0)] == last
    decreases |items|
  {
    if items == [] then Dict([])
    else Insert(FromLiteral(items[..|items| - 1]), items[|items| - 1].0, items[|items| - 1].1)
  }

  /** `list(d.values())`: the values in key order. */
  function Values<V>(d: Dict<V>): (r: seq<V>)
    ensures |r| == |d.entries|
    ensures forall i :: 0 <= i < |d.entries| ==> r[i] == d.entries[i].1
  {
    seq(|d.entries|, i requires 0 <= i < |d.entries| => d.entries[i].1)
  }

  /** Inserting a key that is already present keeps the entries' keys and
      their order; a new key goes to the end. */
  lemma InsertKeys<V>(d: Dict<V>, k: string, v: V)
    ensures KeysOf(Insert(d, k, v).entries)
         == if k in KeysOf(d.entries) then KeysOf(d.entries) else KeysOf(d.entries) + [k]
  {
    var i := Find(d.entries, k);
    if i == |d.entries| {
      assert k !in KeysOf(d.entries);
    }
  }

  /** A dict's keys never repeat, whatever the literal. */
  lemma {:induction false} FromLiteralKeysDistinct<V>(items: seq<(string, V)>)
    ensures Distinct(KeysOf(FromLiteral(items).entries))
    decreases |items|
  {
    if items != [] {
      var d := FromLiteral(items[..|items| - 1]);
      var k := items[|items| - 1].0;
      FromLiteralKeysDistinct(items[..|items| - 1]);
      InsertKeys(d, k, items[|items| - 1].1);
    }
  }

  /** A literal whose keys are all different keeps every item, in writing order. */
  lemma {:induction false} LiteralKeepsItems<V>(items: seq<(string, V)>)
    requires Distinct(KeysOf(items))
    ensures FromLiteral(items).entries == items
    decreases |items|
  {
    if items != [] {
      var init := items[..|items| - 1];
      assert KeysOf(init) == KeysOf(items)[..|items| - 1];
      LiteralKeepsItems(init);
      assert Find(init, items[|items| - 1].0) == |init| by {
        assert forall i :: 0 <= i < |init| ==> KeysOf(items)[i] != KeysOf(items)[|items| - 1];
      }
      assert init + [items[|items| - 1]] == items;
    }
  }

  /** The items of a literal written as `keys[0]: values[0], keys[1]: values[1], ...`. */
  function Zip<V>(keys: seq<string>, values: seq<V>): (items: seq<(string, V)>)
    requires |keys| == |values|
    ensures |items| == |keys|
    ensures forall i :: 0 <= i < |keys| ==> items[i] == (keys[i], values[i])
  {
    seq(|keys|, i requires 0 <= i < |keys| => (keys[i], values[i]))
  }

  /** With distinct keys, `list(d.values())` gives back exactly the values written. */
  lemma LiteralValues<V>(keys: seq<string>, values: seq<V>)
    requires |keys| == |values| && Distinct(keys)
    ensures Values(FromLiteral(Zip(keys, values))) == values
  {
    var items := Zip(keys, values);
    assert KeysOf(items) == keys;
    LiteralKeepsItems(items);
  }
}
