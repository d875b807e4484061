/**
 * The G13 key tables and the per-key helpers of Key.cpp / Key.hpp /
 * KeyState.cpp: KEY_STRINGS, NON_PARSED_KEYS, KeyIndex, the G13 name maps
 * built by InitKeynames, the name/value lookups and KeyState.
 */
module Keys {
  import opened Wrappers

  /** A Linux input key code (LINUX_KEY_VALUE). */
  type LinuxKey = int

  const BAD_KEY_VALUE: int := -1

  /** The G13 keys in report bit order: entry i is bit i%8 of report byte 3+i/8. */
  const KEY_STRINGS: seq<string> := [
    /* byte 3 */ "G1", "G2", "G3", "G4", "G5", "G6", "G7", "G8",
    /* byte 4 */ "G9", "G10", "G11", "G12", "G13", "G14", "G15", "G16",
    /* byte 5 */ "G17", "G18", "G19", "G20", "G21", "G22", "UNDEF1", "LIGHT_STATE",
    /* byte 6 */ "BD", "L1", "L2", "L3", "L4", "M1", "M2", "M3",
    /* byte 7 */ "MR", "LEFT", "DOWN", "TOP", "UNDEF3", "LIGHT", "LIGHT2", "MISC_TOGGLE"
  ]

  /** Bits of the report that are not keys; UNDEF3 is listed twice. */
  const NON_PARSED_KEYS: seq<string> := [
    "UNDEF1", "LIGHT_STATE", "UNDEF3", "LIGHT", "LIGHT2", "UNDEF3", "MISC_TOGGLE"
  ]

  const NUM_KEYS: nat := 40

  lemma KeyCount()
    ensures |KEY_STRINGS| == NUM_KEYS
  {
  }

  // --------------------------------------------------------- distinctness

  ghost predicate NameIsFresh(i: nat)
    requires i < |KEY_STRINGS|
  {
    forall j | 0 <= j < i :: KEY_STRINGS[j] != KEY_STRINGS[i]
  }

  // One small obligation per pair of names keeps each comparison cheap.
  lemma NamesFresh0() ensures NameIsFresh(0) && NameIsFresh(1) {}
  lemma NamesFresh1() ensures NameIsFresh(2) && NameIsFresh(3) {}
  lemma NamesFresh2() ensures NameIsFresh(4) && NameIsFresh(5) {}
  lemma NamesFresh3() ensures NameIsFresh(6) && NameIsFresh(7) {}
  lemma NamesFresh4() ensures NameIsFresh(8) && NameIsFresh(9) {}
  lemma NamesFresh5() ensures NameIsFresh(10) && NameIsFresh(11) {}
  lemma NamesFresh6() ensures NameIsFresh(12) && NameIsFresh(13) {}
  lemma NamesFresh7() ensures NameIsFresh(14) && NameIsFresh(15) {}
  lemma NamesFresh8() ensures NameIsFresh(16) && NameIsFresh(17) {}
  lemma NamesFresh9() ensures NameIsFresh(18) && NameIsFresh(19) {}
  lemma NamesFresh10() ensures NameIsFresh(20) && NameIsFresh(21) {}
  lemma NamesFresh11() ensures NameIsFresh(22) && NameIsFresh(23) {}
  lemma NamesFresh12() ensures NameIsFresh(24) && NameIsFresh(25) {}
  lemma NamesFresh13() ensures NameIsFresh(26) && NameIsFresh(27) {}
  lemma NamesFresh14() ensures NameIsFresh(28) && NameIsFresh(29) {}
  lemma NamesFresh15() ensures NameIsFresh(30) && NameIsFresh(31) {}
  lemma NamesFresh16() ensures NameIsFresh(32) && NameIsFresh(33) {}
  lemma NamesFresh17() ensures NameIsFresh(34) && NameIsFresh(35) {}
  lemma NamesFresh18() ensures NameIsFresh(36) && NameIsFresh(37) {}
  lemma NamesFresh19() ensures NameIsFresh(38) && NameIsFresh(39) {}

  lemma NameFreshAt(i: nat)
    requires i < |KEY_STRINGS|
    ensures NameIsFresh(i)
  {
    if i < 2 { NamesFresh0(); }
    else if i < 4 { NamesFresh1(); }
    else if i < 6 { NamesFresh2(); }
    else if i < 8 { NamesFresh3(); }
    else if i < 10 { NamesFresh4(); }
    else if i < 12 { NamesFresh5(); }
    else if i < 14 { NamesFresh6(); }
    else if i < 16 { NamesFresh7(); }
    else if i < 18 { NamesFresh8(); }
    else if i < 20 { NamesFresh9(); }
    else if i < 22 { NamesFresh10(); }
    else if i < 24 { NamesFresh11(); }
    else if i < 26 { NamesFresh12(); }
    else if i < 28 { NamesFresh13(); }
    else if i < 30 { NamesFresh14(); }
    else if i < 32 { NamesFresh15(); }
    else if i < 34 { NamesFresh16(); }
    else if i < 36 { NamesFresh17(); }
    else if i < 38 { NamesFresh18(); }
    else { NamesFresh19(); }
  }

  /** No G13 key name is listed twice. */
  lemma KeyStringsDistinct()
    ensures forall i, j | 0 <= i < |KEY_STRINGS| && 0 <= j < |KEY_STRINGS| && i != j ::
      KEY_STRINGS[i] != KEY_STRINGS[j]
  {
    forall i, j | 0 <= i < |KEY_STRINGS| && 0 <= j < |KEY_STRINGS| && i != j
      ensures KEY_STRINGS[i] != KEY_STRINGS[j]
    {
      if i < j { NameFreshAt(j); } else { NameFreshAt(i); }
    }
  }

  // ------------------------------------------------------------- KeyIndex

  function Pow2(n: nat): (r: nat)
    ensures r >= 1
  {
    if n == 0 then 1 else 2 * Pow2(n - 1)
  }

  /** The index of a key and the byte offset and bit mask that locate it in a report. */
  datatype KeyIndex = KeyIndex(index: int, offset: nat, mask: nat)

  /**
   * KeyIndex(key): offset is key / 8u and mask is 1u << key % 8u, both in
   * unsigned arithmetic and narrowed to an unsigned char.
   */
  function MakeKeyIndex(key: int): (k: KeyIndex)
    ensures k.index == key
    ensures k.offset < 256 && k.mask < 256
  {
    var u := key % 0x1_0000_0000;
    KeyIndex(key, (u / 8) % 256, Pow2(u % 8) % 256)
  }

  predicate IsSingleBit(m: nat)
  {
    m == 1 || m == 2 || m == 4 || m == 8 || m == 16 || m == 32 || m == 64 || m == 128
  }

  lemma Pow2Small(n: nat)
    requires n < 8
    ensures IsSingleBit(Pow2(n)) && Pow2(n) < 256
  {
    assert Pow2(1) == 2 && Pow2(2) == 4 && Pow2(3) == 8;
    assert Pow2(4) == 16 && Pow2(5) == 32 && Pow2(6) == 64 && Pow2(7) == 128;
  }

  lemma Pow2Injective(a: nat, b: nat)
    requires a < 8 && b < 8 && Pow2(a) == Pow2(b)
    ensures a == b
  {
    assert Pow2(1) == 2 && Pow2(2) == 4 && Pow2(3) == 8;
    assert Pow2(4) == 16 && Pow2(5) == 32 && Pow2(6) == 64 && Pow2(7) == 128;
  }

  /** For every G13 key: the offset is i/8, so only report bytes 3..7 are read, and the mask is bit i%8. */
  lemma KeyIndexLayout(i: int)
    requires 0 <= i < NUM_KEYS
    ensures MakeKeyIndex(i).offset == i / 8 && MakeKeyIndex(i).offset < 5
    ensures MakeKeyIndex(i).mask == Pow2(i % 8)
    ensures IsSingleBit(MakeKeyIndex(i).mask)
  {
    assert i % 0x1_0000_0000 == i;
    assert i / 8 < 5;
    assert (i / 8) % 256 == i / 8;
    Pow2Small(i % 8);
  }

  /** Different keys are read from different bits of the report. */
  lemma KeyIndexInjective(i: int, j: int)
    requires 0 <= i < NUM_KEYS && 0 <= j < NUM_KEYS && i != j
    ensures (MakeKeyIndex(i).offset, MakeKeyIndex(i).mask) != (MakeKeyIndex(j).offset, MakeKeyIndex(j).mask)
  {
    KeyIndexLayout(i);
    KeyIndexLayout(j);
    if i % 8 == j % 8 {
      assert i / 8 != j / 8;
    } else if Pow2(i % 8) == Pow2(j % 8) {
      Pow2Injective(i % 8, j % 8);
    }
  }

  // ------------------------------------------------------ the G13 name maps

  /** name_to_key after InitKeynames has registered the first n of names. */
  function NameTable(names: seq<string>, n: nat): map<string, int>
    requires n <= |names|
  {
    if n == 0 then map[] else NameTable(names, n - 1)[names[n - 1] := n - 1]
  }

  /** key_to_name after InitKeynames has registered the first n of names. */
  function IndexTable(names: seq<string>, n: nat): map<int, string>
    requires n <= |names|
  {
    if n == 0 then map[] else IndexTable(names, n - 1)[n - 1 := names[n - 1]]
  }

  /** The G13 name maps once InitKeynames has run: each name to its position, and back. */
  function G13NameToKey(): map<string, int>
  {
    KeyStringsDistinct();
    map i | 0 <= i < |KEY_STRINGS| :: KEY_STRINGS[i] := i
  }

  function G13KeyToName(): map<int, string>
  {
    map i | 0 <= i < |KEY_STRINGS| :: KEY_STRINGS[i]
  }

  lemma {:induction false} IndexTableUpTo(names: seq<string>, n: nat)
    requires n <= |names|
    ensures forall v :: v in IndexTable(names, n) <==> 0 <= v < n
    ensures forall i | 0 <= i < n :: IndexTable(names, n)[i] == names[i]
  {
    if n > 0 {
      IndexTableUpTo(names, n - 1);
    }
  }

  lemma {:induction false} NameTableUpTo(names: seq<string>, n: nat)
    requires n <= |names|
    requires forall i, j | 0 <= i < |names| && 0 <= j < |names| && i != j :: names[i] != names[j]
    ensures forall name :: name in NameTable(names, n) <==> exists i | 0 <= i < n :: names[i] == name
    ensures forall i | 0 <= i < n :: NameTable(names, n)[names[i]] == i
  {
    if n > 0 {
      NameTableUpTo(names, n - 1);
      var t := NameTable(names, n);
      forall name ensures name in t <==> exists i | 0 <= i < n :: names[i] == name {
        if name == names[n - 1] {
          assert names[n - 1] == name;
        } else {
          if name in t {
            assert name in NameTable(names, n - 1);
            var i :| 0 <= i < n - 1 && names[i] == name;
            assert 0 <= i < n;
          }
          if exists i | 0 <= i < n :: names[i] == name {
            var i :| 0 <= i < n && names[i] == name;
            assert i < n - 1;
          }
        }
      }
    }
  }

  /**
   * InitKeynames maps the G13 names to the consecutive indices 0..39 in
   * table order, and key_to_name is exactly the inverse of name_to_key.
   */
  lemma G13Tables()
    ensures forall name :: name in G13NameToKey() <==> name in KEY_STRINGS
    ensures forall i | 0 <= i < |KEY_STRINGS| :: G13NameToKey()[KEY_STRINGS[i]] == i
    ensures forall v :: v in G13KeyToName() <==> 0 <= v < |KEY_STRINGS|
    ensures forall n | n in G13NameToKey() ::
      G13NameToKey()[n] in G13KeyToName() && G13KeyToName()[G13NameToKey()[n]] == n
    ensures forall v | v in G13KeyToName() ::
      G13KeyToName()[v] in G13NameToKey() && G13NameToKey()[G13KeyToName()[v]] == v
  {
    KeyStringsDistinct();
  }

  /** The G13 half of InitKeynames: the loop over KEY_STRINGS filling both maps. */
  method InitKeynames() returns (keyToName: map<int, string>, nameToKey: map<string, int>)
    ensures keyToName == G13KeyToName() && nameToKey == G13NameToKey()
  {
    keyToName := map[];
    nameToKey := map[];
    var keyIndex := 0;
    while keyIndex < |KEY_STRINGS|
      invariant 0 <= keyIndex <= |KEY_STRINGS|
      invariant keyToName == IndexTable(KEY_STRINGS, keyIndex)
      invariant nameToKey == NameTable(KEY_STRINGS, keyIndex)
    {
      keyToName := keyToName[keyIndex := KEY_STRINGS[keyIndex]];
      nameToKey := nameToKey[KEY_STRINGS[keyIndex] := keyIndex];
      keyIndex := keyIndex + 1;
    }
    KeyStringsDistinct();
    IndexTableUpTo(KEY_STRINGS, keyIndex);
    NameTableUpTo(KEY_STRINGS, keyIndex);
    assert keyToName == G13KeyToName();
    G13Tables();
    forall name ensures name in nameToKey <==> name in G13NameToKey() {
      if name in KEY_STRINGS {
        var i :| 0 <= i < |KEY_STRINGS| && KEY_STRINGS[i] == name;
      }
    }
    forall name | name in nameToKey ensures nameToKey[name] == G13NameToKey()[name] {
      var i :| 0 <= i < |KEY_STRINGS| && KEY_STRINGS[i] == name;
    }
  }

  // ---------------------------------------------------------------- lookups

  /** find_or_throw: the mapped value, or the NotFoundException. */
  function FindOrThrow<K, V>(m: map<K, V>, target: K): (r: Result<V>)
    ensures r.Success? <==> target in m
    ensures r.Success? ==> r.value == m[target]
    ensures r.Failure? ==> r.error == "Element not found"
  {
    if target in m then Success(m[target]) else Failure("Element not found")
  }

  /** FindG13KeyValue: the registered index of a G13 key name, or BAD_KEY_VALUE. */
  function FindG13KeyValue(keyname: string): (r: int)
    ensures r == BAD_KEY_VALUE <==> keyname !in KEY_STRINGS
    ensures r != BAD_KEY_VALUE ==> 0 <= r < NUM_KEYS && KEY_STRINGS[r] == keyname
  {
    G13Tables();
    if keyname in G13NameToKey() then G13NameToKey()[keyname] else BAD_KEY_VALUE
  }

  /** FindG13KeyName: the name of a G13 key index, or a fixed fallback. */
  function FindG13KeyName(v: int): (r: string)
    ensures 0 <= v < NUM_KEYS ==> r == KEY_STRINGS[v]
    ensures !(0 <= v < NUM_KEYS) ==> r == "(unknown G13 key)"
  {
    G13Tables();
    match FindOrThrow(G13KeyToName(), v)
    case Success(name) => name
    case Failure(_) => "(unknown G13 key)"
  }

  /** FindInputKeyName: the name of a Linux key code in the given table, or a fixed fallback. */
  function FindInputKeyName(inputKeyToName: map<LinuxKey, string>, v: LinuxKey): (r: string)
    ensures v in inputKeyToName ==> r == inputKeyToName[v]
    ensures v !in inputKeyToName ==> r == "(unknown linux key)"
  {
    match FindOrThrow(inputKeyToName, v)
    case Success(name) => name
    case Failure(_) => "(unknown linux key)"
  }

  // --------------------------------------------------------------- KeyState

  /** A Linux key code with a direction. */
  datatype KeyState = KeyState(code: LinuxKey, down: bool)
  {
    function Key(): LinuxKey
    {
      code
    }

    /** is_down() converts the key CODE to bool; the stored direction is never read. */
    predicate IsDown()
    {
      code != 0
    }
  }

  /** The default arguments of the KeyState constructor. */
  function DefaultKeyState(key: LinuxKey): (k: KeyState)
    ensures k.Key() == key && k.down
  {
    KeyState(key, true)
  }

  /** The direction plays no part in is_down; BAD_KEY_VALUE reads as down. */
  lemma IsDownIgnoresDirection(key: LinuxKey, down: bool)
    ensures KeyState(key, down).IsDown() == KeyState(key, !down).IsDown()
    ensures KeyState(key, down).IsDown() <==> key != 0
    ensures DefaultKeyState(BAD_KEY_VALUE).IsDown()
  {
  }

  predicate HasPrefix(s: string, p: string)
  {
    |p| <= |s| && s[..|p|] == p
  }

  /**
   * FindInputKeyValue: strip one leading '-' (flipping the direction), then
   * a "KEY_" prefix, and look the rest up; an unknown name gives the code
   * BAD_KEY_VALUE with the default direction.
   */
  function FindInputKeyValue(inputNameToKey: map<string, LinuxKey>, keyname: string, down: bool): (r: KeyState)
    ensures r.code in inputNameToKey.Values || r == DefaultKeyState(BAD_KEY_VALUE)
  {
    var (name, dir) := if HasPrefix(keyname, "-") then (keyname[1..], !down) else (keyname, down);
    var bare := if HasPrefix(name, "KEY_") then name[4..] else name;
    match FindOrThrow(inputNameToKey, bare)
    case Success(code) => KeyState(code, dir)
    case Failure(_) => DefaultKeyState(BAD_KEY_VALUE)
  }

  /** The prefixes are stripped '-' first, then "KEY_", and nothing else is stripped. */
  lemma FindInputKeyValuePrefixes(inputNameToKey: map<string, LinuxKey>, base: string, down: bool)
    requires base in inputNameToKey && !HasPrefix(base, "-") && !HasPrefix(base, "KEY_")
    requires "KEY_-" + base !in inputNameToKey && "-" + base !in inputNameToKey
    ensures FindInputKeyValue(inputNameToKey, base, down) == KeyState(inputNameToKey[base], down)
    ensures FindInputKeyValue(inputNameToKey, "KEY_" + base, down) == KeyState(inputNameToKey[base], down)
    ensures FindInputKeyValue(inputNameToKey, "-" + base, down) == KeyState(inputNameToKey[base], !down)
    ensures FindInputKeyValue(inputNameToKey, "-KEY_" + base, down) == KeyState(inputNameToKey[base], !down)
    ensures FindInputKeyValue(inputNameToKey, "KEY_-" + base, down).code == BAD_KEY_VALUE
  {
    assert ("-" + base)[..1] == "-" && ("-" + base)[1..] == base;
    assert ("KEY_" + base)[..4] == "KEY_" && ("KEY_" + base)[4..] == base && ("KEY_" + base)[..1] == "K";
    var m := "-KEY_" + base;
    assert m[..1] == "-" && m[1..] == "KEY_" + base;
    var w := "KEY_-" + base;
    assert w[..4] == "KEY_" && w[4..] == "-" + base;
    assert w[..1] == "K";
  }

  /** An unknown name resolves to BAD_KEY_VALUE whatever its prefixes. */
  lemma FindInputKeyValueUnknown(inputNameToKey: map<string, LinuxKey>, keyname: string, down: bool)
    requires forall n | n in inputNameToKey :: keyname != n && keyname != "-" + n && keyname != "KEY_" + n && keyname != "-KEY_" + n
    ensures FindInputKeyValue(inputNameToKey, keyname, down) == KeyState(BAD_KEY_VALUE, true)
  {
  }
}
