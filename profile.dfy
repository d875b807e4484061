/**
 * Profile.cpp and the Key slots it holds: a profile is a named table of 40
 * slots, one per G13 key of KEY_STRINGS in report-bit order.  A slot knows
 * where its bit sits in a report, whether it is read at all, and the
 * action bound to it.  Slots are copied by value when a profile is
 * forked (std::vector copy), so a slot is a datatype and the profile an
 * object whose slot vector its methods reassign.
 */
module Profiles {
  import opened Wrappers
  import opened Keys
  import opened Actions

  /** Key: one slot of a profile. */
  datatype Key = Key(name: string, index: KeyIndex, shouldParse: bool, action: Option<Action>)

  /** Key(profile, name, index): a new slot is read and unbound. */
  function NewKey(name: string, index: int): Key
  {
    Key(name, MakeKeyIndex(index), true, None)
  }

  /** The first loop of _init_keys: the first n slots, one per entry of KEY_STRINGS. */
  function CreatedKeys(n: nat): seq<Key>
    requires n <= |KEY_STRINGS|
  {
    if n == 0 then [] else CreatedKeys(n - 1) + [NewKey(KEY_STRINGS[n - 1], n - 1)]
  }

  /** The second loop of _init_keys: each listed slot, found by name, stops being read. */
  function DisableKeys(keys: seq<Key>, names: seq<string>): (r: seq<Key>)
    requires |keys| == NUM_KEYS
    requires forall k | 0 <= k < |names| :: FindG13KeyValue(names[k]) != BAD_KEY_VALUE
    ensures |r| == NUM_KEYS
  {
    if names == [] then keys
    else
      var ks := DisableKeys(keys, names[..|names| - 1]);
      var v := FindG13KeyValue(names[|names| - 1]);
      ks[v := ks[v].(shouldParse := false)]
  }

  /** One pass of the disabling loop. */
  lemma DisableStep(keys: seq<Key>, names: seq<string>, j: nat)
    requires |keys| == NUM_KEYS && j < |names|
    requires forall k | 0 <= k < |names| :: FindG13KeyValue(names[k]) != BAD_KEY_VALUE
    ensures var v := FindG13KeyValue(names[j]);
      var ks := DisableKeys(keys, names[..j]);
      DisableKeys(keys, names[..j + 1]) == ks[v := ks[v].(shouldParse := false)]
  {
    PrefixSnoc(names, j);
  }

  /** NON_PARSED_KEYS names six slots; UNDEF3 is listed twice. */
  lemma NonParsedSlots()
    ensures NON_PARSED_KEYS[0] == KEY_STRINGS[22] && NON_PARSED_KEYS[1] == KEY_STRINGS[23]
    ensures NON_PARSED_KEYS[2] == KEY_STRINGS[36] && NON_PARSED_KEYS[3] == KEY_STRINGS[37]
    ensures NON_PARSED_KEYS[4] == KEY_STRINGS[38] && NON_PARSED_KEYS[5] == KEY_STRINGS[36]
    ensures NON_PARSED_KEYS[6] == KEY_STRINGS[39]
  {
  }

  /** Every name of NON_PARSED_KEYS is a G13 key name. */
  lemma NonParsedAreKeys()
    ensures forall k | 0 <= k < |NON_PARSED_KEYS| :: FindG13KeyValue(NON_PARSED_KEYS[k]) != BAD_KEY_VALUE
  {
    NonParsedSlots();
    forall k | 0 <= k < |NON_PARSED_KEYS| ensures FindG13KeyValue(NON_PARSED_KEYS[k]) != BAD_KEY_VALUE {
      var slot := [22, 23, 36, 37, 38, 36, 39][k];
      assert NON_PARSED_KEYS[k] == KEY_STRINGS[slot];
      SlotOfName(slot);
    }
  }

  /** The slots as _init_keys leaves them. */
  function InitialKeys(): (r: seq<Key>)
  {
    NonParsedAreKeys();
    KeyCount();
    CreatedKeysLayout(NUM_KEYS);
    DisableKeys(CreatedKeys(NUM_KEYS), NON_PARSED_KEYS)
  }

  /** The shape every profile keeps: slot i is the key KEY_STRINGS[i] with index i. */
  predicate WellFormed(keys: seq<Key>)
  {
    |keys| == NUM_KEYS &&
    forall i | 0 <= i < |keys| :: keys[i].name == KEY_STRINGS[i] && keys[i].index == MakeKeyIndex(i)
  }

  lemma {:induction false} CreatedKeysLayout(n: nat)
    requires n <= |KEY_STRINGS|
    ensures |CreatedKeys(n)| == n
    ensures forall i | 0 <= i < n :: CreatedKeys(n)[i] == NewKey(KEY_STRINGS[i], i)
  {
    if n > 0 {
      CreatedKeysLayout(n - 1);
    }
  }

  /** The disabling loop clears exactly the flags of the slots whose names it is given. */
  lemma {:induction false} DisableKeysEffect(keys: seq<Key>, names: seq<string>)
    requires WellFormed(keys)
    requires forall k | 0 <= k < |names| :: FindG13KeyValue(names[k]) != BAD_KEY_VALUE
    ensures WellFormed(DisableKeys(keys, names))
    ensures forall i | 0 <= i < NUM_KEYS ::
      DisableKeys(keys, names)[i] == keys[i].(shouldParse := keys[i].shouldParse && KEY_STRINGS[i] !in names)
  {
    if names != [] {
      var front := names[..|names| - 1];
      var last := names[|names| - 1];
      DisableKeysEffect(keys, front);
      SnocMember(names);
      KeyStringsDistinct();
      var v := FindG13KeyValue(last);
      forall i | 0 <= i < NUM_KEYS
        ensures KEY_STRINGS[i] == last <==> i == v
      {
      }
    }
  }

  /**
   * After construction there are exactly 40 slots, slot i is the unbound
   * key KEY_STRINGS[i] with index i, and exactly the slots named in
   * NON_PARSED_KEYS are not read.
   */
  lemma InitialKeysLayout()
    ensures WellFormed(InitialKeys())
    ensures forall i | 0 <= i < NUM_KEYS ::
      InitialKeys()[i].action == None && (InitialKeys()[i].shouldParse <==> KEY_STRINGS[i] !in NON_PARSED_KEYS)
  {
    KeyCount();
    CreatedKeysLayout(NUM_KEYS);
    NonParsedAreKeys();
    DisableKeysEffect(CreatedKeys(NUM_KEYS), NON_PARSED_KEYS);
  }

  /** Which slot a name of NON_PARSED_KEYS is. */
  lemma NonParsedSlot(i: int)
    requires 0 <= i < NUM_KEYS
    ensures KEY_STRINGS[i] in NON_PARSED_KEYS <==> i in {22, 23, 36, 37, 38, 39}
  {
    NonParsedSlots();
    KeyCount();
    if KEY_STRINGS[i] in NON_PARSED_KEYS {
      var k :| 0 <= k < |NON_PARSED_KEYS| && NON_PARSED_KEYS[k] == KEY_STRINGS[i];
      var slot := [22, 23, 36, 37, 38, 36, 39][k];
      assert KEY_STRINGS[slot] == KEY_STRINGS[i];
      KeyStringsDistinct();
    } else {
      assert NON_PARSED_KEYS[0] != KEY_STRINGS[i] && NON_PARSED_KEYS[1] != KEY_STRINGS[i];
      assert NON_PARSED_KEYS[2] != KEY_STRINGS[i] && NON_PARSED_KEYS[4] != KEY_STRINGS[i];
      assert NON_PARSED_KEYS[6] != KEY_STRINGS[i];
    }
  }

  /** The slots ParseKeys reads: all but 22, 23 and 36 to 39. */
  predicate ParsedSlot(i: int)
  {
    !(i == 22 || i == 23 || 36 <= i <= 39)
  }

  /** The unread slots are those of UNDEF1, LIGHT_STATE, UNDEF3, LIGHT, LIGHT2 and MISC_TOGGLE. */
  lemma UnreadSlots()
    ensures forall i | 0 <= i < NUM_KEYS ::
      !InitialKeys()[i].shouldParse <==> i in {22, 23, 36, 37, 38, 39}
  {
    InitialKeysLayout();
    forall i | 0 <= i < NUM_KEYS
      ensures !InitialKeys()[i].shouldParse <==> i in {22, 23, 36, 37, 38, 39}
    {
      NonParsedSlot(i);
    }
  }

  /** The slots _init_keys leaves are those a valid profile holds. */
  lemma InitialKeysValid()
    ensures WellFormed(InitialKeys())
    ensures forall i | 0 <= i < |InitialKeys()| :: InitialKeys()[i].shouldParse == ParsedSlot(i)
  {
    InitialKeysLayout();
    UnreadSlots();
  }

  /** The names of the slots FilteredKeyNames keeps, in slot order. */
  function FilterKeys(keys: seq<Key>, matches: string -> bool, all: bool): seq<string>
  {
    if keys == [] then []
    else
      var front := FilterKeys(keys[..|keys| - 1], matches, all);
      var k := keys[|keys| - 1];
      if (all || k.action.Some?) && matches(k.name) then front + [k.name] else front
  }

  predicate Kept(k: Key, matches: string -> bool, all: bool)
  {
    (all || k.action.Some?) && matches(k.name)
  }

  /** A name is listed iff some slot of that name is bound (or all slots are asked for) and matches. */
  lemma {:induction false} FilterKeysMembers(keys: seq<Key>, matches: string -> bool, all: bool)
    ensures forall n :: n in FilterKeys(keys, matches, all) <==>
      exists i | 0 <= i < |keys| :: keys[i].name == n && Kept(keys[i], matches, all)
  {
    if keys != [] {
      var front := keys[..|keys| - 1];
      FilterKeysMembers(front, matches, all);
      forall n ensures n in FilterKeys(keys, matches, all) <==>
        exists i | 0 <= i < |keys| :: keys[i].name == n && Kept(keys[i], matches, all)
      {
        if n in FilterKeys(front, matches, all) {
          var i :| 0 <= i < |front| && front[i].name == n && Kept(front[i], matches, all);
          assert keys[i] == front[i];
        }
        if exists i | 0 <= i < |keys| :: keys[i].name == n && Kept(keys[i], matches, all) {
          var i :| 0 <= i < |keys| && keys[i].name == n && Kept(keys[i], matches, all);
          if i < |front| {
            assert front[i] == keys[i];
          }
        }
      }
    }
  }

  /** The slot index of a G13 key name is its position in KEY_STRINGS. */
  lemma SlotOfName(i: int)
    requires 0 <= i < |KEY_STRINGS|
    ensures FindG13KeyValue(KEY_STRINGS[i]) == i
  {
    KeyStringsDistinct();
  }

  /** The listed names come in slot order. */
  lemma FilterKeysOrder(keys: seq<Key>, matches: string -> bool, all: bool)
    requires |keys| <= NUM_KEYS
    requires forall i | 0 <= i < |keys| :: keys[i].name == KEY_STRINGS[i]
    ensures forall a | 0 <= a < |FilterKeys(keys, matches, all)| ::
      0 <= FindG13KeyValue(FilterKeys(keys, matches, all)[a]) < |keys|
    ensures forall a, b | 0 <= a < b < |FilterKeys(keys, matches, all)| ::
      FindG13KeyValue(FilterKeys(keys, matches, all)[a]) < FindG13KeyValue(FilterKeys(keys, matches, all)[b])
  {
    KeyCount();
    forall i | 0 <= i < |keys| ensures FindG13KeyValue(keys[i].name) == i {
      SlotOfName(i);
    }
    FilterSlotsOrder(keys, matches, all, FindG13KeyValue);
  }

  /** The same for any numbering of the names that gives each slot its own index. */
  lemma {:induction false} FilterSlotsOrder(keys: seq<Key>, matches: string -> bool, all: bool, slot: string -> int)
    requires forall i | 0 <= i < |keys| :: slot(keys[i].name) == i
    ensures forall a | 0 <= a < |FilterKeys(keys, matches, all)| ::
      0 <= slot(FilterKeys(keys, matches, all)[a]) < |keys|
    ensures forall a, b | 0 <= a < b < |FilterKeys(keys, matches, all)| ::
      slot(FilterKeys(keys, matches, all)[a]) < slot(FilterKeys(keys, matches, all)[b])
  {
    if keys != [] {
      var front := keys[..|keys| - 1];
      var k := keys[|keys| - 1];
      FilterSlotsOrder(front, matches, all, slot);
      var f := FilterKeys(front, matches, all);
      var r := FilterKeys(keys, matches, all);
      if Kept(k, matches, all) {
        assert r == f + [k.name];
        forall a | 0 <= a < |r|
          ensures 0 <= slot(r[a]) < |keys|
        {
          if a < |f| {
            assert r[a] == f[a];
          }
        }
        forall a, b | 0 <= a < b < |r|
          ensures slot(r[a]) < slot(r[b])
        {
          assert r[a] == f[a];
          if b < |f| {
            assert r[b] == f[b];
          }
        }
      } else {
        assert r == f;
      }
    }
  }

  /** Profile: a named table of key slots. */
  class Profile {
    const name: string
    var keys: seq<Key>

    /** Slot i is key KEY_STRINGS[i], and it is read unless it is one of the non-key bits. */
    predicate Valid()
      reads this
    {
      WellFormed(keys) && forall i | 0 <= i < |keys| :: keys[i].shouldParse == ParsedSlot(i)
    }

    /** Profile(keypad, name). */
    constructor Init(name: string)
      ensures this.name == name && keys == InitialKeys()
      ensures Valid()
    {
      this.name := name;
      keys := [];
      new;
      InitKeys();
    }

    /** _init_keys: one slot per KEY_STRINGS entry, then the NON_PARSED_KEYS slots stop being read. */
    method InitKeys()
      modifies this
      ensures keys == InitialKeys() && Valid()
    {
      CreateKeys();
      DisableNonParsed();
      InitialKeysValid();
    }

    /** The first loop of _init_keys: a fresh slot per entry of KEY_STRINGS. */
    method CreateKeys()
      modifies this
      ensures keys == CreatedKeys(NUM_KEYS) && WellFormed(keys)
    {
      KeyCount();
      keys := [];
      var keyIndex := 0;
      while keyIndex < |KEY_STRINGS|
        invariant 0 <= keyIndex <= |KEY_STRINGS|
        invariant keys == CreatedKeys(keyIndex)
      {
        keys := keys + [NewKey(KEY_STRINGS[keyIndex], keyIndex)];
        keyIndex := keyIndex + 1;
      }
      CreatedKeysLayout(keyIndex);
    }

    /** The second loop of _init_keys: FindKey each NON_PARSED_KEYS name and clear its flag. */
    method DisableNonParsed()
      requires WellFormed(keys)
      modifies this
      ensures WellFormed(old(keys)) && keys == DisableKeys(old(keys), NON_PARSED_KEYS)
    {
      NonParsedAreKeys();
      ghost var k0 := keys;
      var j := 0;
      while j < |NON_PARSED_KEYS|
        invariant 0 <= j <= |NON_PARSED_KEYS|
        invariant keys == DisableKeys(k0, NON_PARSED_KEYS[..j])
      {
        var slot := FindKey(NON_PARSED_KEYS[j]);
        DisableStep(k0, NON_PARSED_KEYS, j);
        keys := keys[slot.value := keys[slot.value].(shouldParse := false)];
        j := j + 1;
      }
      WholePrefix(NON_PARSED_KEYS);
    }

    /** Profile(other, name): the fork copies the slot vector, bindings included. */
    constructor Fork(other: Profile, name: string)
      requires other.Valid()
      ensures this.name == name && keys == other.keys
      ensures Valid()
    {
      this.name := name;
      keys := other.keys;
    }

    /** FindKey: the slot of a G13 key name, or none (a null pointer). */
    function FindKey(keyname: string): (r: Option<nat>)
      reads this
      ensures r.Some? ==> r.value < |keys|
      ensures Valid() ==> (r.Some? <==> keyname in KEY_STRINGS)
      ensures Valid() && r.Some? ==> keys[r.value].name == keyname
    {
      var key := FindG13KeyValue(keyname);
      if 0 <= key < |keys| then Some(key) else None
    }

    /** FilteredKeyNames: the matching slot names, bound slots only unless `all`. */
    function FilteredKeyNames(matches: string -> bool, all: bool): seq<string>
      reads this
    {
      FilterKeys(keys, matches, all)
    }

    /** set_action on one slot; nothing else in the profile changes. */
    method SetAction(slot: nat, action: Option<Action>)
      requires slot < |keys|
      modifies this
      ensures keys == old(keys)[slot := old(keys)[slot].(action := action)]
      ensures old(Valid()) ==> Valid()
    {
      keys := keys[slot := keys[slot].(action := action)];
    }
  }

  /** On a valid profile FilteredKeyNames lists matching names in slot order. */
  lemma FilteredKeyNamesSpec(p: Profile, matches: string -> bool, all: bool)
    requires p.Valid()
    ensures forall n :: n in p.FilteredKeyNames(matches, all) <==>
      n in KEY_STRINGS && p.FindKey(n).Some? && Kept(p.keys[p.FindKey(n).value], matches, all)
    ensures forall a, b | 0 <= a < b < |p.FilteredKeyNames(matches, all)| ::
      p.FindKey(p.FilteredKeyNames(matches, all)[a]).value < p.FindKey(p.FilteredKeyNames(matches, all)[b]).value
  {
    FilterKeysMembers(p.keys, matches, all);
    FilterKeysOrder(p.keys, matches, all);
    forall n ensures n in p.FilteredKeyNames(matches, all) <==>
      n in KEY_STRINGS && p.FindKey(n).Some? && Kept(p.keys[p.FindKey(n).value], matches, all)
    {
      if n in p.FilteredKeyNames(matches, all) {
        var i :| 0 <= i < |p.keys| && p.keys[i].name == n && Kept(p.keys[i], matches, all);
        SlotOfName(i);
      }
    }
  }

  /** In a well-formed slot vector a slot's name is listed exactly when that slot is kept. */
  lemma FilterKeysSlots(keys: seq<Key>, matches: string -> bool, all: bool)
    requires WellFormed(keys)
    ensures forall i | 0 <= i < |keys| :: keys[i].name in FilterKeys(keys, matches, all) <==> Kept(keys[i], matches, all)
  {
    FilterKeysMembers(keys, matches, all);
    forall i | 0 <= i < |keys| && keys[i].name in FilterKeys(keys, matches, all)
      ensures Kept(keys[i], matches, all)
    {
      var j :| 0 <= j < |keys| && keys[j].name == keys[i].name && Kept(keys[j], matches, all);
      SameNameSameSlot(keys, i, j);
    }
  }

  /** In a well-formed slot vector no two slots share a name. */
  lemma SameNameSameSlot(keys: seq<Key>, i: nat, j: nat)
    requires WellFormed(keys) && i < |keys| && j < |keys|
    ensures keys[i].name == keys[j].name ==> i == j
  {
    SlotOfName(i);
    SlotOfName(j);
  }
}
