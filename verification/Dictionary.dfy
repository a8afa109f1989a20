/** The open-slot dictionary under the configuration reader (soaagent/dictionary.c). */
module Dictionary {
  import opened CString

  type Text = seq<byte>

  const DICTMINSZ := 128

  /** One character mixed into the hash; a C char is sign-extended before it is added. */
  function Mix(hash: bv32, c: byte): bv32
  {
    var code := c as int as bv32;
    var h1 := hash + (if code < 0x80 then code else code | 0xFFFFFF00);
    var h2 := h1 + (h1 << 10);
    h2 ^ (h2 >> 6)
  }

  function MixAll(hash: bv32, key: Text): bv32
    decreases |key|
  {
    if key == [] then hash else MixAll(Mix(hash, key[0]), key[1..])
  }

  function Finish(hash: bv32): bv32
  {
    var h1 := hash + (hash << 3);
    var h2 := h1 ^ (h1 >> 11);
    h2 + (h2 << 15)
  }

  function Hash(key: Text): bv32
  {
    Finish(MixAll(0, key))
  }

  /** One-at-a-time hashing of one character, as published with the algorithm. */
  lemma HashOfOne()
    ensures Hash([]) == 0 && Hash(['a']) == 0xCA2E_9442
  {
    MixOne();
    hide Mix;
    assert ['a'][1..] == [];
    assert MixAll(0, ['a']) == MixAll(Mix(0, 'a'), []);
  }

  lemma MixOne()
    ensures Mix(0, 'a') == 0x0001_8270
  {
  }

  /** dictionary_hash */
  method DictionaryHash(key: Text) returns (hash: bv32)
    ensures hash == Hash(key)
  {
    hide Mix, Finish;
    hash := 0;
    var i := 0;
    while i < |key|
      invariant 0 <= i <= |key| && MixAll(hash, key[i..]) == MixAll(0, key)
    {
      assert key[i..][1..] == key[i + 1..];
      hash := Mix(hash, key[i]);
      i := i + 1;
    }
    hash := Finish(hash);
  }

  /** How many slots hold a key. */
  function Occupied(keys: seq<Option<Text>>): (n: nat)
    ensures n <= |keys|
  {
    if keys == [] then 0 else (if keys[0].Some? then 1 else 0) + Occupied(keys[1..])
  }

  lemma OccupiedUpdate(keys: seq<Option<Text>>, i: nat, k: Option<Text>)
    requires i < |keys|
    ensures Occupied(keys[i := k])
         == Occupied(keys) - (if keys[i].Some? then 1 else 0) + (if k.Some? then 1 else 0)
  {
    if i > 0 {
      OccupiedUpdate(keys[1..], i - 1, k);
      assert keys[i := k][1..] == keys[1..][i - 1 := k];
    } else {
      assert keys[i := k][1..] == keys[1..];
    }
  }

  lemma OccupiedConcat(a: seq<Option<Text>>, b: seq<Option<Text>>)
    ensures Occupied(a + b) == Occupied(a) + Occupied(b)
  {
    if a == [] {
      assert a + b == b;
    } else {
      assert (a + b)[1..] == a[1..] + b;
    }
  }

  lemma NoneOccupied(keys: seq<Option<Text>>)
    requires forall i | 0 <= i < |keys| :: keys[i] == None
    ensures Occupied(keys) == 0
  {
  }

  /** A dictionary that is not full has an empty slot. */
  lemma EmptySlotExists(keys: seq<Option<Text>>) returns (e: nat)
    requires Occupied(keys) < |keys|
    ensures e < |keys| && keys[e] == None
  {
    if keys[0] == None {
      e := 0;
    } else {
      e := EmptySlotExists(keys[1..]);
      e := e + 1;
    }
  }

  /** Every occupied slot holds a key of m with its hash and value. */
  ghost predicate Stored(keys: seq<Option<Text>>, vals: seq<Option<Text>>, hashes: seq<bv32>,
                         m: map<Text, Option<Text>>)
  {
    && |keys| == |vals| == |hashes|
    && forall i | 0 <= i < |keys| && keys[i].Some? ::
         hashes[i] == Hash(keys[i].value) && keys[i].value in m && m[keys[i].value] == vals[i]
  }

  /** No key is in two slots. */
  ghost predicate Unique(keys: seq<Option<Text>>)
  {
    forall i, j | 0 <= i < j < |keys| && keys[i].Some? :: keys[i] != keys[j]
  }

  /** Every key of m has a slot. */
  ghost predicate Covers(keys: seq<Option<Text>>, m: map<Text, Option<Text>>)
  {
    forall k | k in m :: Some(k) in keys
  }

  /** The slots keys/vals/hashes, n of them occupied, stand for the map m. */
  ghost predicate Represents(keys: seq<Option<Text>>, vals: seq<Option<Text>>, hashes: seq<bv32>, n: nat,
                             m: map<Text, Option<Text>>)
  {
    n == Occupied(keys) == |m| && Stored(keys, vals, hashes, m) && Unique(keys) && Covers(keys, m)
  }

  lemma RepresentsEmpty(keys: seq<Option<Text>>, vals: seq<Option<Text>>, hashes: seq<bv32>)
    requires |keys| == |vals| == |hashes| && forall i | 0 <= i < |keys| :: keys[i] == None
    ensures Represents(keys, vals, hashes, 0, map[])
  {
    NoneOccupied(keys);
  }

  lemma UniqueFilled(keys: seq<Option<Text>>, i: nat, k: Text)
    requires Unique(keys) && i < |keys| && Some(k) !in keys
    ensures Unique(keys[i := Some(k)])
  {
  }

  lemma UniqueCleared(keys: seq<Option<Text>>, i: nat)
    requires Unique(keys) && i < |keys|
    ensures Unique(keys[i := None])
  {
  }

  /** Changing one slot keeps the keys of the others. */
  lemma CoversUpdate(keys: seq<Option<Text>>, m: map<Text, Option<Text>>, m': map<Text, Option<Text>>,
                     i: nat, k: Option<Text>)
    requires Covers(keys, m) && i < |keys|
    requires forall q | q in m' :: Some(q) == k || (q in m && Some(q) != keys[i])
    ensures Covers(keys[i := k], m')
  {
    var keys' := keys[i := k];
    forall q | q in m'
      ensures Some(q) in keys'
    {
      if Some(q) == k {
        assert keys'[i] == k;
      } else {
        var j :| 0 <= j < |keys| && keys[j] == Some(q);
        assert keys'[j] == Some(q);
      }
    }
  }

  lemma KeyIsStored(keys: seq<Option<Text>>, vals: seq<Option<Text>>, hashes: seq<bv32>, m: map<Text, Option<Text>>,
                    k: Text)
    requires Stored(keys, vals, hashes, m) && k !in m
    ensures Some(k) !in keys
  {
  }

  /** Filling an empty slot adds a key. */
  lemma {:induction false} RepresentsFilled(keys: seq<Option<Text>>, vals: seq<Option<Text>>, hashes: seq<bv32>, n: nat,
                                            m: map<Text, Option<Text>>, i: nat, k: Text, v: Option<Text>)
    requires Represents(keys, vals, hashes, n, m) && i < |keys| && keys[i] == None && k !in m
    ensures |keys| == |vals| == |hashes|
    ensures Represents(keys[i := Some(k)], vals[i := v], hashes[i := Hash(k)], n + 1, m[k := v])
  {
    hide Hash, Occupied, Unique, Covers;
    OccupiedUpdate(keys, i, Some(k));
    KeyIsStored(keys, vals, hashes, m, k);
    UniqueFilled(keys, i, k);
    CoversUpdate(keys, m, m[k := v], i, Some(k));
  }

  /** Overwriting the value slot of a key changes what it maps to. */
  lemma RepresentsReplaced(keys: seq<Option<Text>>, vals: seq<Option<Text>>, hashes: seq<bv32>, n: nat,
                           m: map<Text, Option<Text>>, i: nat, k: Text, v: Option<Text>)
    requires Represents(keys, vals, hashes, n, m) && i < |keys| && keys[i] == Some(k)
    ensures Represents(keys, vals[i := v], hashes, n, m[k := v])
  {
    hide Hash, Occupied;
  }

  lemma SmallerMap(m: map<Text, Option<Text>>, k: Text)
    requires k in m
    ensures |m - {k}| == |m| - 1
  {
    assert m == (m - {k})[k := m[k]];
  }

  lemma OtherSlots(keys: seq<Option<Text>>, i: nat)
    requires Unique(keys) && i < |keys| && keys[i].Some?
    ensures forall j | 0 <= j < |keys| && j != i :: keys[j] != keys[i]
  {
  }

  /** Clearing a slot removes its key. */
  lemma {:induction false} RepresentsCleared(keys: seq<Option<Text>>, vals: seq<Option<Text>>, hashes: seq<bv32>,
                                             n: nat, m: map<Text, Option<Text>>, i: nat, k: Text)
    requires Represents(keys, vals, hashes, n, m) && i < |keys| && keys[i] == Some(k)
    ensures n > 0 && |keys| == |vals| == |hashes|
    ensures Represents(keys[i := None], vals[i := None], hashes[i := 0], n - 1, m - {k})
  {
    hide Hash, Occupied, Unique, Covers;
    OccupiedUpdate(keys, i, None);
    SmallerMap(m, k);
    OtherSlots(keys, i);
    UniqueCleared(keys, i);
    CoversUpdate(keys, m, m - {k}, i, None);
  }

  lemma SlotsGrown(keys: seq<Option<Text>>, vals: seq<Option<Text>>, hashes: seq<bv32>, m: map<Text, Option<Text>>,
                   keys': seq<Option<Text>>, vals': seq<Option<Text>>, hashes': seq<bv32>)
    requires Stored(keys, vals, hashes, m) && Unique(keys) && Covers(keys, m)
    requires |keys'| == |vals'| == |hashes'| && keys <= keys' && vals <= vals' && hashes <= hashes'
    requires forall i | |keys| <= i < |keys'| :: keys'[i] == None
    ensures Stored(keys', vals', hashes', m) && Unique(keys') && Covers(keys', m)
  {
    hide Hash;
    assert forall i | 0 <= i < |keys| :: keys'[i] == keys[i] && vals'[i] == vals[i] && hashes'[i] == hashes[i];
    forall k | k in m
      ensures Some(k) in keys'
    {
      var i :| 0 <= i < |keys| && keys[i] == Some(k);
      assert keys'[i] == Some(k);
    }
  }

  /** Appending empty slots changes nothing. */
  lemma RepresentsGrown(keys: seq<Option<Text>>, vals: seq<Option<Text>>, hashes: seq<bv32>, n: nat,
                        m: map<Text, Option<Text>>, keys': seq<Option<Text>>, vals': seq<Option<Text>>,
                        hashes': seq<bv32>)
    requires Represents(keys, vals, hashes, n, m)
    requires |keys'| == |vals'| == |hashes'| && keys <= keys' && vals <= vals' && hashes <= hashes'
    requires forall i | |keys| <= i < |keys'| :: keys'[i] == None
    ensures Represents(keys', vals', hashes', n, m)
  {
    hide Hash, Stored, Unique, Covers, Occupied;
    SlotsGrown(keys, vals, hashes, m, keys', vals', hashes');
    NoneOccupied(keys'[|keys|..]);
    OccupiedConcat(keys, keys'[|keys|..]);
    assert keys' == keys + keys'[|keys|..];
  }

  class Dictionary {
    var n: nat
    var size: nat
    var val: array<Option<Text>>
    var key: array<Option<Text>>
    var hash: array<bv32>

    /** The plain map that the slots stand for. */
    ghost var contents: map<Text, Option<Text>>

    ghost function Arrays(): set<object>
      reads this
    {
      {key as object, val as object, hash as object}
    }

    ghost predicate Valid()
      reads this, key, val, hash
    {
      && key != val && key as object != hash && val as object != hash
      && key.Length == val.Length == hash.Length == size >= 128
      && Represents(key[..], val[..], hash[..], n, contents)
    }

    /** dictionary_new */
    constructor (size: nat)
      ensures Valid() && contents == map[]
      ensures fresh(Arrays())
    {
      var slots := if size < DICTMINSZ then DICTMINSZ else size;
      this.size := slots;
      n := 0;
      val := new Option<Text>[slots](_ => None);
      key := new Option<Text>[slots](_ => None);
      hash := new bv32[slots](_ => 0);
      contents := map[];
      new;
      RepresentsEmpty(key[..], val[..], hash[..]);
    }

    /** The scan that get, set and unset share: the slot holding k, or size. */
    method Scan(k: Text) returns (i: nat)
      requires Valid()
      ensures i <= size
      ensures i < size ==> key[i] == Some(k) && k in contents && contents[k] == val[i]
      ensures i == size ==> k !in contents
    {
      hide Hash;
      var h := DictionaryHash(k);
      i := 0;
      while i < size
        invariant 0 <= i <= size && Some(k) !in key[..i]
      {
        if key[i].Some? && h == hash[i] && k == key[i].value {
          return;
        }
        i := i + 1;
      }
      assert key[..size] == key[..];
    }

    /** dictionary_get */
    method Get(k: Text, def: Option<Text>) returns (r: Option<Text>)
      requires Valid()
      ensures r == if k in contents then contents[k] else def
    {
      hide Represents;
      var i := Scan(k);
      r := if i < size then val[i] else def;
    }

    /** The reallocation of dictionary_set: every array doubled, new slots empty. */
    method Grow()
      requires Valid()
      modifies this
      ensures Valid() && contents == old(contents) && n == old(n) && size == 2 * old(size)
      ensures fresh(Arrays())
    {
      hide Represents;
      ghost var keys, vals, hashes := key[..], val[..], hash[..];
      key := Doubled(key, None);
      val := Doubled(val, None);
      hash := Doubled(hash, 0);
      size := size * 2;
      RepresentsGrown(keys, vals, hashes, n, contents, key[..], val[..], hash[..]);
    }

    /** mem_double */
    static method Doubled<T>(a: array<T>, zero: T) returns (b: array<T>)
      ensures fresh(b) && b.Length == 2 * a.Length
      ensures a[..] <= b[..] && forall i | a.Length <= i < b.Length :: b[i] == zero
    {
      b := new T[2 * a.Length](_ => zero);
      forall i | 0 <= i < a.Length {
        b[i] := a[i];
      }
    }

    /** The probe of dictionary_set: an empty slot, searched from n and around the end. */
    method EmptySlot() returns (i: nat)
      requires Valid() && n < size
      ensures i < size && key[i] == None
    {
      ghost var e := EmptySlotExists(key[..]);
      i := n;
      while key[i] != None
        invariant 0 <= i < size
        decreases if i <= e then e - i else e + size - i
      {
        i := i + 1;
        if i == size {
          i := 0;
        }
      }
    }

    lemma SizeBound()
      requires Valid()
      ensures n <= size
    {
    }

    /** dictionary_set */
    method Set(k: Option<Text>, v: Option<Text>) returns (code: int)
      requires Valid()
      modifies this, Arrays()
      ensures Valid() && fresh(Arrays() - old(Arrays()))
      ensures k == None ==> code == -1 && contents == old(contents)
      ensures k.Some? ==> code == 0 && contents == old(contents)[k.value := v]
    {
      hide Represents, Hash;
      if k == None {
        return -1;
      }
      SizeBound();
      if n > 0 {
        var i := Scan(k.value);
        if i < size {
          RepresentsReplaced(key[..], val[..], hash[..], n, contents, i, k.value, v);
          ghost var vals := val[..];
          val[i] := v;
          assert val[..] == vals[i := v];
          contents := contents[k.value := v];
          return 0;
        }
      } else {
        NothingStored();
      }
      if n == size {
        Grow();
      }
      var i := EmptySlot();
      Fill(i, k.value, v);
      return 0;
    }

    lemma NothingStored()
      requires Valid() && n == 0
      ensures contents == map[]
    {
    }

    /** The end of dictionary_set: the new key goes into an empty slot. */
    method Fill(i: nat, k: Text, v: Option<Text>)
      requires Valid() && i < size && key[i] == None && k !in contents
      modifies this`n, this`contents, key, val, hash
      ensures Valid() && contents == old(contents)[k := v]
    {
      hide Represents, Hash;
      ghost var keys, vals, hashes := key[..], val[..], hash[..];
      RepresentsFilled(keys, vals, hashes, n, contents, i, k, v);
      var h := DictionaryHash(k);
      key[i] := Some(k);
      val[i] := v;
      hash[i] := h;
      assert key[..] == keys[i := Some(k)] && val[..] == vals[i := v] && hash[..] == hashes[i := h];
      n := n + 1;
      contents := contents[k := v];
    }

    /** dictionary_unset */
    method Unset(k: Option<Text>)
      requires Valid()
      modifies this`n, this`contents, key, val, hash
      ensures Valid()
      ensures contents == if k == None then old(contents) else old(contents) - {k.value}
    {
      hide Represents;
      if k == None {
        return;
      }
      var i := Scan(k.value);
      if i >= size {
        return;
      }
      ghost var keys, vals, hashes := key[..], val[..], hash[..];
      RepresentsCleared(keys, vals, hashes, n, contents, i, k.value);
      PositiveCount(k.value);
      key[i] := None;
      val[i] := None;
      hash[i] := 0;
      assert key[..] == keys[i := None] && val[..] == vals[i := None] && hash[..] == hashes[i := 0];
      n := n - 1;
      contents := contents - {k.value};
    }

    lemma PositiveCount(k: Text)
      requires Valid() && k in contents
      ensures n > 0
    {
    }
  }

  datatype Op =
    | GetOp(wanted: Text, def: Option<Text>)
    | SetOp(k: Option<Text>, v: Option<Text>)
    | UnsetOp(k: Option<Text>)

  /** The same operations on a plain map, with what each get returns. */
  function After(m: map<Text, Option<Text>>, op: Op): map<Text, Option<Text>>
  {
    match op
    case GetOp(_, _) => m
    case SetOp(None, _) => m
    case SetOp(Some(k), v) => m[k := v]
    case UnsetOp(None) => m
    case UnsetOp(Some(k)) => m - {k}
  }

  /** What an operation returns, if anything. */
  function Output(m: map<Text, Option<Text>>, op: Op): seq<Option<Text>>
  {
    if op.GetOp? then [if op.wanted in m then m[op.wanted] else op.def] else []
  }

  function Results(m: map<Text, Option<Text>>, ops: seq<Op>): seq<Option<Text>>
    decreases |ops|
  {
    if ops == [] then [] else Output(m, ops[0]) + Results(After(m, ops[0]), ops[1..])
  }

  /** The last operation that sets or unsets k. */
  function LastSettling(ops: seq<Op>, k: Text): Option<Op>
  {
    if ops == [] then None
    else
      var later := LastSettling(ops[1..], k);
      if later.Some? then later else if Settles(ops[0], k) then Some(ops[0]) else None
  }

  /** What a get finds after operations on a dictionary that held m. */
  function Found(m: map<Text, Option<Text>>, last: Option<Op>, k: Text, def: Option<Text>): Option<Text>
  {
    match last
    case None => if k in m then m[k] else def
    case Some(SetOp(_, v)) => v
    case Some(_) => def
  }

  lemma FoundStep(m: map<Text, Option<Text>>, op: Op, later: Option<Op>, k: Text, def: Option<Text>)
    ensures Found(After(m, op), later, k, def)
         == Found(m, if later.Some? then later else if Settles(op, k) then Some(op) else None, k, def)
  {
  }

  /** After any operations a get returns what the last set of its key gave, or the default if it was unset since. */
  lemma {:induction false} LastSettlingDecides(m: map<Text, Option<Text>>, ops: seq<Op>, k: Text, def: Option<Text>)
    ensures Results(m, ops + [GetOp(k, def)]) == Results(m, ops) + [Found(m, LastSettling(ops, k), k, def)]
    decreases |ops|
  {
    var get := GetOp(k, def);
    if ops == [] {
      assert [] + [get] == [get] && [get][1..] == [];
    } else {
      assert (ops + [get])[1..] == ops[1..] + [get];
      FoundStep(m, ops[0], LastSettling(ops[1..], k), k, def);
      hide After, Output, Found, Settles;
      LastSettlingDecides(After(m, ops[0]), ops[1..], k, def);
      Associate(Output(m, ops[0]), Results(After(m, ops[0]), ops[1..]), [Found(m, LastSettling(ops, k), k, def)]);
    }
  }

  // ----- setting to NULL -----

  /** The operation sets or unsets k. */
  predicate Settles(op: Op, k: Text)
  {
    (op.SetOp? || op.UnsetOp?) && op.k == Some(k)
  }

  /** The operation gets k with a default. */
  predicate AsksWithDefault(op: Op, k: Text)
  {
    op.GetOp? && op.wanted == k && op.def != None
  }

  /** Every get of k before k is set or unset again passes a NULL default. */
  predicate NeverAsksWithDefault(k: Text, ops: seq<Op>)
    decreases |ops|
  {
    ops == [] || (!AsksWithDefault(ops[0], k) && (Settles(ops[0], k) || NeverAsksWithDefault(k, ops[1..])))
  }

  lemma NullOrAbsentStep(m: map<Text, Option<Text>>, k: Text, op: Op)
    ensures Output(m[k := None], op) == Output(m - {k}, op) <==> !AsksWithDefault(op, k)
    ensures |Output(m[k := None], op)| == |Output(m - {k}, op)|
    ensures if Settles(op, k) then After(m[k := None], op) == After(m - {k}, op)
            else After(m[k := None], op) == After(m, op)[k := None] && After(m - {k}, op) == After(m, op) - {k}
  {
  }

  lemma {:induction false} NullOrAbsent(m: map<Text, Option<Text>>, k: Text, ops: seq<Op>)
    ensures Results(m[k := None], ops) == Results(m - {k}, ops) <==> NeverAsksWithDefault(k, ops)
    decreases |ops|
  {
    hide Output, After, Settles, AsksWithDefault;
    if ops == [] {
    } else {
      var op, a, b := ops[0], m[k := None], m - {k};
      NullOrAbsentStep(m, k, op);
      NullOrAbsent(After(m, op), k, ops[1..]);
      SameConcat(Output(a, op), Output(b, op), Results(After(a, op), ops[1..]), Results(After(b, op), ops[1..]));
    }
  }

  lemma SameConcat<T>(a: seq<T>, b: seq<T>, x: seq<T>, y: seq<T>)
    requires |a| == |b|
    ensures a + x == b + y <==> a == b && x == y
  {
    assert (a + x)[..|a|] == a && (a + x)[|a|..] == x;
    assert (b + y)[..|b|] == b && (b + y)[|b|..] == y;
  }

  /**
   Setting a key to NULL does for later operations what unsetting it does exactly when none of them
   gets the key with a default before it is set or unset again.
   */
  lemma {:induction false} NullIsUnset(m: map<Text, Option<Text>>, k: Text, ops: seq<Op>)
    ensures Results(After(m, SetOp(Some(k), None)), ops) == Results(After(m, UnsetOp(Some(k))), ops)
       <==> NeverAsksWithDefault(k, ops)
  {
    NullOrAbsent(m, k, ops);
  }

  /** A key that was set to NULL is found, with NULL; one that was unset gives the default. */
  lemma NullIsNotUnset()
    ensures Results(map[], [SetOp(Some("k"), None), GetOp("k", Some("d"))]) == [None]
    ensures Results(map[], [UnsetOp(Some("k")), GetOp("k", Some("d"))]) == [Some("d")]
  {
    var m: map<Text, Option<Text>> := map[];
    var get := GetOp("k", Some("d"));
    assert [SetOp(Some("k"), None), get][1..] == [get] && [UnsetOp(Some("k")), get][1..] == [get] && [get][1..] == [];
    assert Results(After(m, SetOp(Some("k"), None)), [get]) == [None] + [];
    assert Results(After(m, UnsetOp(Some("k"))), [get]) == [Some("d")] + [];
  }

  method Step(d: Dictionary, op: Op) returns (out: seq<Option<Text>>)
    requires d.Valid()
    modifies d, d.Arrays()
    ensures d.Valid() && fresh(d.Arrays() - old(d.Arrays()))
    ensures d.contents == After(old(d.contents), op) && out == Output(old(d.contents), op)
  {
    hide Represents;
    out := [];
    match op {
      case GetOp(k, def) =>
        var r := d.Get(k, def);
        out := [r];
      case SetOp(k, v) =>
        var _ := d.Set(k, v);
      case UnsetOp(k) =>
        d.Unset(k);
    }
  }

  lemma NextResults(m: map<Text, Option<Text>>, ops: seq<Op>, i: nat)
    requires i < |ops|
    ensures Results(m, ops[i..]) == Output(m, ops[i]) + Results(After(m, ops[i]), ops[i + 1..])
  {
    assert ops[i..][1..] == ops[i + 1..];
  }

  /** Any run of operations on a new dictionary returns what the plain map returns. */
  method Run(size: nat, ops: seq<Op>) returns (results: seq<Option<Text>>)
    ensures results == Results(map[], ops)
  {
    hide Represents, Results, After, Output;
    var d := new Dictionary(size);
    results := [];
    var i := 0;
    assert ops[0..] == ops;
    while i < |ops|
      invariant 0 <= i <= |ops| && d.Valid() && fresh(d) && fresh(d.Arrays())
      invariant results + Results(d.contents, ops[i..]) == Results(map[], ops)
    {
      NextResults(d.contents, ops, i);
      ghost var before, rest := results, Results(After(d.contents, ops[i]), ops[i + 1..]);
      var out := Step(d, ops[i]);
      assert before + (out + rest) == (before + out) + rest;
      results := results + out;
      i := i + 1;
    }
    NoMoreResults(d.contents, ops[i..]);
  }

  lemma NoMoreResults(m: map<Text, Option<Text>>, ops: seq<Op>)
    requires ops == []
    ensures Results(m, ops) == []
  {
  }
}
