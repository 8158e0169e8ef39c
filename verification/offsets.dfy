/** The layout of a save file: the sixteen editable statistics, each a
    little-endian unsigned field at a fixed offset, and the two system
    locations, a one-byte progress counter and a four-byte checksum. */
module Offsets {
  import opened Wrappers

  datatype Kind = U16 | U32

  /** Where a statistic lives and how wide it is; `name` is the French
      display name the editor reports. */
  datatype StatConfig = StatConfig(offset: nat, size: nat, kind: Kind, name: string)

  /** One named entry of the statistics table. */
  datatype StatEntry = StatEntry(key: string, config: StatConfig)

  /** The statistics table, in declaration order (the order in which the
      editor enumerates it). */
  const Stats: seq<StatEntry> := [
    StatEntry("coins", StatConfig(0x195c, 4, U32, "Pièces")),
    StatEntry("drifts", StatConfig(0x1968, 4, U32, "Dérapages")),
    StatEntry("miniTurbos", StatConfig(0x1970, 4, U32, "Mini-Turbos")),
    StatEntry("superMiniTurbo", StatConfig(0x1974, 4, U32, "Super Mini-Turbo")),
    StatEntry("ultraMiniTurbo", StatConfig(0x1978, 4, U32, "Ultra Mini-Turbo")),
    StatEntry("jumpSync", StatConfig(0x1964, 4, U32, "Saut Synchro")),
    StatEntry("lakituRescue", StatConfig(0x1578, 4, U32, "Sauvetage Lakitu")),
    StatEntry("racePoints", StatConfig(0x1e94, 4, U32, "Points Course")),
    StatEntry("battlePoints", StatConfig(0x1e98, 4, U32, "Points Bataille")),
    StatEntry("goldCrowns", StatConfig(0x19f0, 4, U32, "Couronnes Or")),
    StatEntry("silverCrowns", StatConfig(0x01a6, 2, U16, "Couronnes Argent")),
    StatEntry("bronzeCrowns", StatConfig(0x012a, 2, U16, "Couronnes Bronze")),
    StatEntry("worldRegionalGames", StatConfig(0x02e8, 4, U32, "Parties Mondiales/Régionales")),
    StatEntry("friendGames", StatConfig(0x03ac, 4, U32, "Parties entre Amis")),
    StatEntry("tournaments", StatConfig(0x0004, 4, U32, "Tournois")),
    StatEntry("totalGames", StatConfig(0x0350, 4, U32, "Total Parties"))
  ]

  /** The progress counter: one byte. */
  const CounterOffset: nat := 0x2124
  /** The checksum: a little-endian 32-bit value. */
  const ChecksumOffset: nat := 0x38
  const ChecksumSize: nat := 4

  /** The largest value a field of kind `k` accepts. */
  function MaxValue(k: Kind): nat
  {
    match k
    case U16 => 0xFFFF
    case U32 => 0xFFFF_FFFF
  }

  /** The byte width of a field of kind `k`. */
  function Width(k: Kind): nat
  {
    match k
    case U16 => 2
    case U32 => 4
  }

  /** `name` is a key of `entries`. */
  ghost predicate HasKey(entries: seq<StatEntry>, name: string)
  {
    exists i :: 0 <= i < |entries| && entries[i].key == name
  }

  /** The configuration of the first entry of `entries` keyed `name`. */
  function Find(entries: seq<StatEntry>, name: string): (r: Option<StatConfig>)
    ensures r.None? <==> !HasKey(entries, name)
    ensures r.Some? ==> exists i :: 0 <= i < |entries| && entries[i] == StatEntry(name, r.value)
  {
    if |entries| == 0 then None
    else if entries[0].key == name then Some(entries[0].config)
    else
      var r := Find(entries[1..], name);
      assert forall i :: 0 < i < |entries| ==> entries[1..][i - 1] == entries[i];
      assert r.Some? ==> exists i :: 0 <= i < |entries| && entries[i] == StatEntry(name, r.value) by {
        if r.Some? {
          var j :| 0 <= j < |entries[1..]| && entries[1..][j] == StatEntry(name, r.value);
          assert entries[j + 1] == StatEntry(name, r.value);
        }
      }
      r
  }

  /** One past the last byte of any statistic. */
  const StatsEnd: nat := 0x1E9C

  /** `getStatConfig`: the table entry for a key of the table, and nothing
      otherwise; an entry found is a field of its kind's width that ends by
      `StatsEnd`. */
  function GetStatConfig(name: string): (r: Option<StatConfig>)
    ensures r.None? <==> !HasKey(Stats, name)
    ensures r.Some? ==> exists i :: 0 <= i < |Stats| && Stats[i] == StatEntry(name, r.value)
    ensures r.Some? ==> r.value.size == Width(r.value.kind) && r.value.offset + r.value.size <= StatsEnd
  {
    TableShape();
    FieldsEnd();
    Find(Stats, name)
  }

  /** The properties every JavaScript object inherits from
      `Object.prototype`. */
  const InheritedNames: set<string> := {
    "constructor", "hasOwnProperty", "isPrototypeOf", "propertyIsEnumerable",
    "toLocaleString", "toString", "valueOf", "__proto__",
    "__defineGetter__", "__defineSetter__", "__lookupGetter__", "__lookupSetter__"
  }

  /** What the property access `STATS_OFFSETS[name]` yields in the JavaScript:
      the table's own entry, an inherited value (a function or the
      prototype object, which is truthy and has no `type`), or undefined. */
  datatype Property = Own(config: StatConfig) | Inherited | Undefined

  /** `getStatConfig` as written: the property access, falling back to
      null (`Undefined`) only when it yields nothing. */
  function PropertyOf(name: string): (r: Property)
    ensures r.Own? <==> HasKey(Stats, name)
    ensures r.Own? ==> GetStatConfig(name) == Some(r.config)
    ensures r.Inherited? <==> !HasKey(Stats, name) && name in InheritedNames
  {
    match GetStatConfig(name)
    case Some(c) => Own(c)
    case None => if name in InheritedNames then Inherited else Undefined
  }

  /** The `name` property of the value an inherited key reaches. Each
      inherited function is named after its key, except `constructor`,
      which is the function `Object`; the prototype object reached through
      `__proto__` has no name. */
  function InheritedNameOf(key: string): Option<string>
  {
    if key == "__proto__" then None
    else if key == "constructor" then Some("Object")
    else Some(key)
  }

  /** `toString` is not a statistic, yet the lookup as written finds
      something for it. */
  lemma InheritedNameIsFound()
    ensures GetStatConfig("toString") == None
    ensures PropertyOf("toString") == Inherited
  {
    ToStringIsNoKey();
    assert "toString" in InheritedNames;
  }

  lemma ToStringIsNoKey()
    ensures !HasKey(Stats, "toString")
  {
    forall i | 0 <= i < |Stats|
      ensures Stats[i].key != "toString"
    {
      assert |Stats[i].key| != 8 || Stats[i].key[0] == 'j';
    }
  }

  /** `constructor` is not a statistic either, and reaches the inherited
      function `Object`. */
  lemma ConstructorIsInherited()
    ensures GetStatConfig("constructor") == None
    ensures PropertyOf("constructor") == Inherited
    ensures InheritedNameOf("constructor") == Some("Object")
  {
    ConstructorIsNoKey();
    assert "constructor" in InheritedNames;
  }

  lemma ConstructorIsNoKey()
    ensures !HasKey(Stats, "constructor")
  {
    forall i | 0 <= i < |Stats|
      ensures Stats[i].key != "constructor"
    {
      assert |Stats[i].key| != 11 || Stats[i].key[0] != 'c';
    }
  }

  /** Every statistic has a non-empty display name. */
  lemma NamesNonEmpty()
    ensures forall i :: 0 <= i < |Stats| ==> |Stats[i].config.name| > 0
  {
  }

  /** The bytes `[offset, offset + width)` a field of this kind covers. */
  ghost predicate InField(c: StatConfig, p: int)
  {
    c.offset <= p < c.offset + Width(c.kind)
  }

  /** The table has sixteen entries, and every entry is a two-byte 16-bit
      field or a four-byte 32-bit field. */
  lemma TableShape()
    ensures |Stats| == 16
    ensures forall i :: 0 <= i < |Stats| ==> Stats[i].config.size == Width(Stats[i].config.kind)
  {
  }

  /** Every statistic ends by `StatsEnd`. */
  lemma FieldsEnd()
    ensures forall i :: 0 <= i < |Stats| ==> Stats[i].config.offset + Stats[i].config.size <= StatsEnd
  {
  }

  /** No key occurs twice in the table. */
  lemma KeysDistinct()
    ensures forall i, j :: 0 <= i < j < |Stats| ==> Stats[i].key != Stats[j].key
  {
  }

  /** No byte belongs to two statistics. */
  lemma FieldsDisjoint()
    ensures forall i, j, p :: 0 <= i < j < |Stats| && InField(Stats[i].config, p) ==> !InField(Stats[j].config, p)
  {
  }

  /** No statistic covers a checksum byte or the counter byte. */
  lemma FieldsAvoidSystem()
    ensures forall i, p :: 0 <= i < |Stats| && InField(Stats[i].config, p) ==>
      !(ChecksumOffset <= p < ChecksumOffset + ChecksumSize) && p != CounterOffset
  {
  }

  /** Every key of the table is found, with its own configuration. */
  lemma GetStatConfigFindsEveryKey(i: nat)
    requires i < |Stats|
    ensures GetStatConfig(Stats[i].key) == Some(Stats[i].config)
  {
    KeysDistinct();
    var r := GetStatConfig(Stats[i].key);
    assert HasKey(Stats, Stats[i].key);
    var j :| 0 <= j < |Stats| && Stats[j] == StatEntry(Stats[i].key, r.value);
    assert j == i;
  }
}
