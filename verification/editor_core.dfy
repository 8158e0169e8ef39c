/** The editor: a working buffer, the pristine copy it was loaded from,
    the file name and a modified flag, held as one immutable value. Each
    operation maps an editor to a new editor and a result; an exception
    thrown by the JavaScript editor is a `Failure` here, and a failing
    operation hands back the editor it was given. */
module EditorCore {
  import opened Wrappers
  import opened Binary
  import opened Offsets
  import opened Validation

  datatype Editor = Editor(saveData: Option<seq<byte>>, originalData: Option<seq<byte>>, fileName: string, isModified: bool)

  /** Why an operation of the editor refused. */
  datatype EditError =
    | NotLoaded
    | InvalidFile(details: seq<FileError>)
    | UnknownStat(key: string)
    | OutOfRange(name: string, value: int, max: nat)
    | CounterOutOfRange(value: int)
    | NothingToFinalize

  /** The editor after an operation, and what the operation returned. */
  datatype Outcome<T> = Outcome(editor: Editor, result: Result<T, EditError>)

  /** The editor as constructed: nothing loaded, no name, not modified. */
  const Fresh: Editor := Editor(None, None, "", false)

  /** What every reachable editor satisfies: both buffers are present or
      both absent, and present buffers have the accepted length. */
  ghost predicate Valid(e: Editor)
  {
    (e.saveData.Some? <==> e.originalData.Some?) &&
    (e.saveData.Some? ==> |e.saveData.value| == ExpectedFileSize && |e.originalData.value| == ExpectedFileSize)
  }

  /** The fresh editor is reachable and holds nothing to read or save. */
  lemma FreshEditor()
    ensures Valid(Fresh) && !Fresh.isModified && Fresh.fileName == ""
    ensures GetSaveData(Fresh) == Failure(NotLoaded) && ExtractAllStats(Fresh) == Failure(NotLoaded)
    ensures ResetModifications(Fresh) == Fresh
  {
  }

  /** The field of kind `c.kind` at `c.offset`. */
  function ReadStat(buf: seq<byte>, c: StatConfig): (r: nat)
    requires c.offset + Width(c.kind) <= |buf|
    ensures r <= MaxValue(c.kind)
  {
    match c.kind
    case U32 => ReadUint32LE(buf, c.offset)
    case U16 => ReadUint16LE(buf, c.offset)
  }

  /** Stores `v` into the field of kind `c.kind` at `c.offset`. */
  function WriteStat(buf: seq<byte>, c: StatConfig, v: int): (r: seq<byte>)
    requires c.offset + Width(c.kind) <= |buf|
    ensures |r| == |buf|
    ensures forall p :: 0 <= p < |buf| && !InField(c, p) ==> r[p] == buf[p]
    ensures 0 <= v <= MaxValue(c.kind) ==> ReadStat(r, c) == v
  {
    match c.kind
    case U32 =>
      ReadAfterWrite32(buf, c.offset, v);
      WriteUint32LE(buf, c.offset, v)
    case U16 =>
      ReadAfterWrite16(buf, c.offset, v);
      WriteUint16LE(buf, c.offset, v)
  }

  /** A field reads the same in two buffers that agree on its bytes. */
  lemma ReadStatFrame(a: seq<byte>, b: seq<byte>, c: StatConfig)
    requires c.offset + Width(c.kind) <= |a| && |a| == |b|
    requires forall p :: InField(c, p) ==> a[p] == b[p]
    ensures ReadStat(a, c) == ReadStat(b, c)
  {
  }

  datatype StatValue = StatValue(key: string, value: nat)

  /** Every statistic of the table, in table order, read from `buf`. */
  function StatsOf(buf: seq<byte>): (r: seq<StatValue>)
    requires |buf| == ExpectedFileSize
    ensures |r| == |Stats|
    ensures forall i :: 0 <= i < |Stats| ==> r[i].key == Stats[i].key
  {
    TableShape();
    LayoutFitsFile();
    seq(|Stats|, (i: int) requires 0 <= i < |Stats| => StatValue(Stats[i].key, ReadStat(buf, Stats[i].config)))
  }

  /** `extractAllStats`: refuses when nothing is loaded; otherwise each
      statistic is the little-endian value of its width at its offset. */
  function ExtractAllStats(e: Editor): (r: Result<seq<StatValue>, EditError>)
    requires Valid(e)
    ensures r.Failure? <==> e.saveData.None?
    ensures r.Failure? ==> r.error == NotLoaded
    ensures r.Success? ==> |r.value| == |Stats| && forall i :: 0 <= i < |Stats| ==>
      r.value[i].key == Stats[i].key &&
      r.value[i].value == match Stats[i].config.kind
        case U32 => ReadUint32LE(e.saveData.value, Stats[i].config.offset)
        case U16 => ReadUint16LE(e.saveData.value, Stats[i].config.offset)
  {
    if e.saveData.None? then Failure(NotLoaded) else Success(StatsOf(e.saveData.value))
  }

  datatype Loaded = Loaded(validation: Report, stats: seq<StatValue>)

  /** `loadSaveFile`: a file of the wrong length is refused with the
      validator's errors and the editor is left as it was; any other file
      becomes both the working buffer and the pristine copy. */
  function LoadSaveFile(e: Editor, data: seq<byte>, fileName: string): (o: Outcome<Loaded>)
    ensures |data| != ExpectedFileSize ==> o == Outcome(e, Failure(InvalidFile([WrongSize(|data|)])))
    ensures |data| == ExpectedFileSize ==> o.editor == Editor(Some(data), Some(data), fileName, false)
    ensures |data| == ExpectedFileSize ==>
      Valid(o.editor) && o.result.Success? &&
      o.result.value.validation.valid && o.result.value.stats == ExtractAllStats(o.editor).value
    ensures Valid(e) ==> Valid(o.editor)
  {
    var validation := ValidateSaveFileSimple(data);
    if !validation.valid then
      Outcome(e, Failure(InvalidFile(validation.errors)))
    else
      var loaded := Editor(Some(data), Some(data), fileName, false);
      Outcome(loaded, Success(Loaded(validation, ExtractAllStats(loaded).value)))
  }

  /** `modifyStat`: refuses, changing nothing, when nothing is loaded, the
      key is not in the table, or the value lies outside 0 to the field's
      maximum. Otherwise the field reads back as the value, no byte
      outside it changes, and the editor is marked modified. */
  function ModifyStat(e: Editor, key: string, value: int): (o: Outcome<bool>)
    requires Valid(e)
    ensures Valid(o.editor)
    ensures o.result.Success? <==>
      e.saveData.Some? && GetStatConfig(key).Some? && 0 <= value <= MaxValue(GetStatConfig(key).value.kind)
    ensures o.result.Failure? ==> o.editor == e
    ensures e.saveData.None? ==> o.result == Failure(NotLoaded)
    ensures e.saveData.Some? && GetStatConfig(key).None? ==> o.result == Failure(UnknownStat(key))
    ensures e.saveData.Some? && GetStatConfig(key).Some? ==>
      var c := GetStatConfig(key).value;
      !(0 <= value <= MaxValue(c.kind)) ==> o.result == Failure(OutOfRange(c.name, value, MaxValue(c.kind)))
    ensures o.result.Success? ==>
      var c := GetStatConfig(key).value;
      o.result.value && o.editor.saveData.Some? &&
      |o.editor.saveData.value| == |e.saveData.value| &&
      ReadStat(o.editor.saveData.value, c) == value &&
      (forall p :: 0 <= p < |e.saveData.value| && !InField(c, p) ==> o.editor.saveData.value[p] == e.saveData.value[p]) &&
      o.editor.isModified && o.editor.originalData == e.originalData && o.editor.fileName == e.fileName
  {
    if e.saveData.None? then Outcome(e, Failure(NotLoaded))
    else
      match GetStatConfig(key)
      case None => Outcome(e, Failure(UnknownStat(key)))
      case Some(c) =>
        var max := MaxValue(c.kind);
        if value < 0 || value > max then Outcome(e, Failure(OutOfRange(c.name, value, max)))
        else
          Outcome(e.(saveData := Some(WriteStat(e.saveData.value, c, value)), isModified := true), Success(true))
  }

  /** How the range message's `${config.name}` prints an inherited
      value's name: a missing name prints as "undefined". */
  function MessageName(key: string): string
  {
    match InheritedNameOf(key)
    case Some(n) => n
    case None => "undefined"
  }

  /** `modifyStat` as written, where the key is looked up with the
      property access that also reaches inherited names. An inherited
      value has no `type`: it is given the 16-bit maximum, a value beyond
      it is refused under the inherited value's own name, neither write
      branch fires, and the editor is still marked modified. */
  function ModifyStatAsWritten(e: Editor, key: string, value: int): (o: Outcome<bool>)
    requires Valid(e)
    ensures Valid(o.editor)
    ensures !PropertyOf(key).Inherited? ==> o == ModifyStat(e, key, value)
    ensures e.saveData.Some? && PropertyOf(key).Inherited? ==>
      (o.result.Success? <==> 0 <= value <= 0xFFFF)
    ensures e.saveData.Some? && PropertyOf(key).Inherited? && o.result.Failure? ==>
      o == Outcome(e, Failure(OutOfRange(MessageName(key), value, 0xFFFF)))
    ensures PropertyOf(key).Inherited? && o.result.Success? ==>
      o.editor == e.(isModified := true)
  {
    if e.saveData.None? then Outcome(e, Failure(NotLoaded))
    else
      match PropertyOf(key)
      case Undefined => Outcome(e, Failure(UnknownStat(key)))
      case Own(c) => ModifyStat(e, key, value)
      case Inherited =>
        if value < 0 || value > 0xFFFF then Outcome(e, Failure(OutOfRange(MessageName(key), value, 0xFFFF)))
        else Outcome(e.(isModified := true), Success(true))
  }

  /** On a loaded editor, `modifyStat("toString", 5)` as written reports
      success and marks the editor modified without writing a byte; the
      table-only lookup refuses it. */
  lemma InheritedNameModifies(e: Editor)
    requires Valid(e) && e.saveData.Some?
    ensures ModifyStatAsWritten(e, "toString", 5) == Outcome(e.(isModified := true), Success(true))
    ensures ModifyStat(e, "toString", 5) == Outcome(e, Failure(UnknownStat("toString")))
  {
    InheritedNameIsFound();
  }

  /** After a successful write, extraction reports the new value for the
      statistic written and the old value for every other one. */
  lemma ExtractAfterModify(e: Editor, key: string, value: int)
    requires Valid(e) && ModifyStat(e, key, value).result.Success?
    ensures
      var before := ExtractAllStats(e).value;
      var after := ExtractAllStats(ModifyStat(e, key, value).editor).value;
      forall i :: 0 <= i < |Stats| ==>
        after[i].value == if Stats[i].key == key then value else before[i].value
  {
    var after := ModifyStat(e, key, value).editor;
    forall i | 0 <= i < |Stats|
      ensures ExtractAllStats(after).value[i].value ==
        if Stats[i].key == key then value else ExtractAllStats(e).value[i].value
    {
      GetStatConfigFindsEveryKey(i);
      if Stats[i].key != key {
        ModifyKeepsOthers(e, key, value, Stats[i].key);
      }
    }
  }

  /** A successful write, `name: value`, with the statistic's display name. */
  datatype Applied = Applied(name: string, value: int)
  /** A refused write and the reason. */
  datatype Rejected = Rejected(key: string, error: EditError)

  datatype Batch = Batch(editor: Editor, success: seq<Applied>, errors: seq<Rejected>)

  /** One update of a batch: the write is attempted on the editor the
      batch has reached, and its outcome is logged on the matching list. */
  function BatchStep(b: Batch, key: string, value: int): (r: Batch)
    requires Valid(b.editor)
    ensures Valid(r.editor)
    ensures r.editor == ModifyStat(b.editor, key, value).editor
    ensures ModifyStat(b.editor, key, value).result.Success? ==>
      r.success == b.success + [Applied(GetStatConfig(key).value.name, value)] && r.errors == b.errors
    ensures ModifyStat(b.editor, key, value).result.Failure? ==>
      r.success == b.success && r.errors == b.errors + [Rejected(key, ModifyStat(b.editor, key, value).result.error)]
  {
    var o := ModifyStat(b.editor, key, value);
    if o.result.Success? then
      Batch(o.editor, b.success + [Applied(GetStatConfig(key).value.name, value)], b.errors)
    else
      Batch(o.editor, b.success, b.errors + [Rejected(key, o.result.error)])
  }

  /** `modifyMultipleStats`: tries every update in order, each against the
      editor the previous ones left; a refusal is logged and the batch goes
      on, and nothing already written is undone. */
  function ModifyMultipleStats(e: Editor, updates: seq<(string, int)>): (b: Batch)
    requires Valid(e)
    ensures Valid(b.editor)
    ensures |b.success| + |b.errors| == |updates|
    ensures b.editor.originalData == e.originalData && b.editor.fileName == e.fileName
    ensures b.editor.saveData.Some? <==> e.saveData.Some?
    ensures e.saveData.Some? ==> |b.editor.saveData.value| == |e.saveData.value|
    decreases |updates|
  {
    if |updates| == 0 then Batch(e, [], [])
    else
      var n := |updates| - 1;
      BatchStep(ModifyMultipleStats(e, updates[..n]), updates[n].0, updates[n].1)
  }

  /** The name `modifyMultipleStats` logs a successful write under,
      `STATS_OFFSETS[statName]?.name || statName`: a table entry gives
      its display name; an inherited value gives its own name, and the
      prototype object, which has none, falls back to the key. */
  function LoggedName(key: string): string
  {
    match PropertyOf(key)
    case Own(c) => if |c.name| > 0 then c.name else key
    case Inherited =>
      (match InheritedNameOf(key)
       case Some(n) => if |n| > 0 then n else key
       case None => key)
    case Undefined => key
  }

  /** For a key of the table the logged name is its display name. */
  lemma LoggedNameOfKey(key: string)
    requires GetStatConfig(key).Some?
    ensures LoggedName(key) == GetStatConfig(key).value.name
  {
    NamesNonEmpty();
  }

  /** One update of the batch as written, where `modifyStat` looks the key
      up with the property access that also reaches inherited names. */
  function BatchStepAsWritten(b: Batch, key: string, value: int): (r: Batch)
    requires Valid(b.editor)
    ensures Valid(r.editor)
    ensures r.editor == ModifyStatAsWritten(b.editor, key, value).editor
    ensures |r.success| + |r.errors| == |b.success| + |b.errors| + 1
  {
    var o := ModifyStatAsWritten(b.editor, key, value);
    if o.result.Success? then
      Batch(o.editor, b.success + [Applied(LoggedName(key), value)], b.errors)
    else
      Batch(o.editor, b.success, b.errors + [Rejected(key, o.result.error)])
  }

  /** `modifyMultipleStats` as written: each update goes through the
      as-written `modifyStat`. */
  function ModifyMultipleStatsAsWritten(e: Editor, updates: seq<(string, int)>): (b: Batch)
    requires Valid(e)
    ensures Valid(b.editor)
    ensures |b.success| + |b.errors| == |updates|
    decreases |updates|
  {
    if |updates| == 0 then Batch(e, [], [])
    else
      var n := |updates| - 1;
      BatchStepAsWritten(ModifyMultipleStatsAsWritten(e, updates[..n]), updates[n].0, updates[n].1)
  }

  /** An update naming no inherited property is one step of either batch. */
  lemma StepAsWrittenAgrees(b: Batch, key: string, value: int)
    requires Valid(b.editor) && !PropertyOf(key).Inherited?
    ensures BatchStepAsWritten(b, key, value) == BatchStep(b, key, value)
  {
    if GetStatConfig(key).Some? {
      LoggedNameOfKey(key);
    }
  }

  /** The as-written batch after the first `i` updates is the one after
      the first `i - 1` with update `i - 1` applied. */
  lemma PrefixStepAsWritten(e: Editor, updates: seq<(string, int)>, i: int)
    requires Valid(e) && 0 < i <= |updates|
    ensures ModifyMultipleStatsAsWritten(e, updates[..i]) ==
            BatchStepAsWritten(ModifyMultipleStatsAsWritten(e, updates[..i - 1]), updates[i - 1].0, updates[i - 1].1)
  {
    var u := updates[..i];
    assert |u| == i && u[i - 1] == updates[i - 1];
    assert u[..i - 1] == updates[..i - 1];
  }

  /** Up to any prefix length, a batch naming no inherited property
      behaves as written exactly as the corrected batch does. */
  lemma {:induction false} AgreesUpTo(e: Editor, updates: seq<(string, int)>, i: int)
    requires Valid(e) && 0 <= i <= |updates|
    requires forall j :: 0 <= j < |updates| ==> !PropertyOf(updates[j].0).Inherited?
    ensures ModifyMultipleStatsAsWritten(e, updates[..i]) == ModifyMultipleStats(e, updates[..i])
    decreases i
  {
    if i > 0 {
      AgreesUpTo(e, updates, i - 1);
      PrefixStepAsWritten(e, updates, i);
      PrefixStep(e, updates, i);
      StepAsWrittenAgrees(ModifyMultipleStats(e, updates[..i - 1]), updates[i - 1].0, updates[i - 1].1);
    }
  }

  /** A batch that names no inherited property behaves as written exactly
      as the corrected batch does. */
  lemma BatchAsWrittenAgrees(e: Editor, updates: seq<(string, int)>)
    requires Valid(e)
    requires forall j :: 0 <= j < |updates| ==> !PropertyOf(updates[j].0).Inherited?
    ensures ModifyMultipleStatsAsWritten(e, updates) == ModifyMultipleStats(e, updates)
  {
    AgreesUpTo(e, updates, |updates|);
    assert updates[..|updates|] == updates;
  }

  /** On a loaded editor the batch `{"toString": 5}` as written logs a
      success and marks the editor modified without writing a byte; the
      corrected batch logs it as an unknown statistic and changes nothing. */
  lemma InheritedNameBatches(e: Editor)
    requires Valid(e) && e.saveData.Some?
    ensures ModifyMultipleStatsAsWritten(e, [("toString", 5)]) == Batch(e.(isModified := true), [Applied("toString", 5)], [])
    ensures ModifyMultipleStats(e, [("toString", 5)]) == Batch(e, [], [Rejected("toString", UnknownStat("toString"))])
  {
    var u := [("toString", 5)];
    assert u[..0] == [];
    assert ModifyMultipleStatsAsWritten(e, u) == BatchStepAsWritten(Batch(e, [], []), "toString", 5);
    assert ModifyMultipleStats(e, u) == BatchStep(Batch(e, [], []), "toString", 5);
    InheritedNameModifies(e);
    InheritedNameIsFound();
    assert LoggedName("toString") == "toString";
  }

  /** On a loaded editor `modifyStat("constructor", 70000)` as written is
      refused with a message naming `Object`, the name of the inherited
      function, and the batch logs that message under the key. */
  lemma ConstructorOutOfRange(e: Editor)
    requires Valid(e) && e.saveData.Some?
    ensures ModifyStatAsWritten(e, "constructor", 70000) == Outcome(e, Failure(OutOfRange("Object", 70000, 0xFFFF)))
    ensures ModifyMultipleStatsAsWritten(e, [("constructor", 70000)]) ==
            Batch(e, [], [Rejected("constructor", OutOfRange("Object", 70000, 0xFFFF))])
  {
    ConstructorIsInherited();
    var u := [("constructor", 70000)];
    assert u[..0] == [];
    assert ModifyMultipleStatsAsWritten(e, u) == BatchStepAsWritten(Batch(e, [], []), "constructor", 70000);
  }

  /** With nothing loaded every update is refused and the editor is left
      as it was. */
  lemma {:induction false} BatchWithoutFile(e: Editor, updates: seq<(string, int)>)
    requires Valid(e) && e.saveData.None?
    ensures ModifyMultipleStats(e, updates).editor == e
    ensures ModifyMultipleStats(e, updates).success == []
    ensures |ModifyMultipleStats(e, updates).errors| == |updates|
    ensures forall j :: 0 <= j < |updates| ==> ModifyMultipleStats(e, updates).errors[j] == Rejected(updates[j].0, NotLoaded)
    decreases |updates|
  {
    if |updates| > 0 {
      var prefix := updates[..|updates| - 1];
      BatchWithoutFile(e, prefix);
      assert forall j :: 0 <= j < |prefix| ==> prefix[j] == updates[j];
    }
  }

  /** Distinct keys of the table name fields with no byte in common. */
  lemma DistinctKeysDisjoint(k1: string, k2: string, p: int)
    requires GetStatConfig(k1).Some? && GetStatConfig(k2).Some? && k1 != k2
    requires InField(GetStatConfig(k1).value, p)
    ensures !InField(GetStatConfig(k2).value, p)
  {
    FieldsDisjoint();
    var i :| 0 <= i < |Stats| && Stats[i] == StatEntry(k1, GetStatConfig(k1).value);
    var j :| 0 <= j < |Stats| && Stats[j] == StatEntry(k2, GetStatConfig(k2).value);
    assert i != j;
  }

  /** Updates to distinct known keys with values in range all succeed, and
      afterwards every field reads back the value written to it. */
  ghost predicate GoodUpdates(updates: seq<(string, int)>)
  {
    (forall j :: 0 <= j < |updates| ==>
      GetStatConfig(updates[j].0).Some? && 0 <= updates[j].1 <= MaxValue(GetStatConfig(updates[j].0).value.kind)) &&
    (forall j, k :: 0 <= j < k < |updates| ==> updates[j].0 != updates[k].0)
  }

  lemma BatchReadsBack(e: Editor, updates: seq<(string, int)>)
    requires Valid(e) && e.saveData.Some?
    requires GoodUpdates(updates)
    ensures ModifyMultipleStats(e, updates).errors == []
    ensures forall j :: 0 <= j < |updates| ==>
      ReadStat(ModifyMultipleStats(e, updates).editor.saveData.value, GetStatConfig(updates[j].0).value) == updates[j].1
  {
    NoErrorsUpTo(e, updates, |updates|);
    assert updates[..|updates|] == updates;
    forall j | 0 <= j < |updates|
      ensures ReadStat(ModifyMultipleStats(e, updates).editor.saveData.value, GetStatConfig(updates[j].0).value) == updates[j].1
    {
      BatchKeepsLastWrite(e, updates, j);
    }
  }

  /** Updates to known keys with in-range values log no error, up to any
      prefix length. */
  lemma {:induction false} NoErrorsUpTo(e: Editor, updates: seq<(string, int)>, i: int)
    requires Valid(e) && e.saveData.Some? && 0 <= i <= |updates|
    requires forall j :: 0 <= j < |updates| ==>
      GetStatConfig(updates[j].0).Some? && 0 <= updates[j].1 <= MaxValue(GetStatConfig(updates[j].0).value.kind)
    ensures ModifyMultipleStats(e, updates[..i]).errors == []
    decreases i
  {
    if i > 0 {
      NoErrorsUpTo(e, updates, i - 1);
      NoErrorAt(e, updates, i);
    }
  }

  /** Update `i - 1`, to a known key with an in-range value, logs no error. */
  lemma NoErrorAt(e: Editor, updates: seq<(string, int)>, i: int)
    requires Valid(e) && e.saveData.Some? && 0 < i <= |updates|
    requires GetStatConfig(updates[i - 1].0).Some? && 0 <= updates[i - 1].1 <= MaxValue(GetStatConfig(updates[i - 1].0).value.kind)
    ensures ModifyMultipleStats(e, updates[..i]).errors == ModifyMultipleStats(e, updates[..i - 1]).errors
  {
    PrefixStep(e, updates, i);
    StepApplies(ModifyMultipleStats(e, updates[..i - 1]), updates[i - 1].0, updates[i - 1].1);
  }

  /** One step of a batch keeps every earlier log entry. */
  lemma StepKeepsLogs(b: Batch, key: string, value: int)
    requires Valid(b.editor)
    ensures forall x :: x in b.success ==> x in BatchStep(b, key, value).success
    ensures forall x :: x in b.errors ==> x in BatchStep(b, key, value).errors
  {
  }

  /** One step of a loaded batch with a known key and an in-range value is
      logged as applied and reads back. */
  lemma StepApplies(b: Batch, key: string, value: int)
    requires Valid(b.editor) && b.editor.saveData.Some?
    requires GetStatConfig(key).Some? && 0 <= value <= MaxValue(GetStatConfig(key).value.kind)
    ensures Applied(GetStatConfig(key).value.name, value) in BatchStep(b, key, value).success
    ensures BatchStep(b, key, value).errors == b.errors
    ensures ReadStat(BatchStep(b, key, value).editor.saveData.value, GetStatConfig(key).value) == value
  {
  }

  /** One step of a loaded batch with an unknown key or a value out of
      range is logged as refused, with the reason. */
  lemma StepRefuses(b: Batch, key: string, value: int)
    requires Valid(b.editor) && b.editor.saveData.Some?
    ensures GetStatConfig(key).None? ==> Rejected(key, UnknownStat(key)) in BatchStep(b, key, value).errors
    ensures GetStatConfig(key).Some? ==>
      var c := GetStatConfig(key).value;
      !(0 <= value <= MaxValue(c.kind)) ==>
        Rejected(key, OutOfRange(c.name, value, MaxValue(c.kind))) in BatchStep(b, key, value).errors
  {
  }

  /** One step of a loaded batch leaves the field of any other key alone. */
  lemma StepKeepsOther(b: Batch, key: string, value: int, other: string)
    requires Valid(b.editor) && b.editor.saveData.Some?
    requires GetStatConfig(other).Some? && other != key
    ensures ReadStat(BatchStep(b, key, value).editor.saveData.value, GetStatConfig(other).value) ==
            ReadStat(b.editor.saveData.value, GetStatConfig(other).value)
  {
    if ModifyStat(b.editor, key, value).result.Success? {
      ModifyKeepsOthers(b.editor, key, value, other);
    }
  }

  /** A batch's logs only grow: every entry logged after the first `m`
      updates is still logged at the end. */
  lemma {:induction false} LogsGrow(e: Editor, updates: seq<(string, int)>, m: int)
    requires Valid(e) && 0 <= m <= |updates|
    ensures forall x :: x in ModifyMultipleStats(e, updates[..m]).success ==> x in ModifyMultipleStats(e, updates).success
    ensures forall x :: x in ModifyMultipleStats(e, updates[..m]).errors ==> x in ModifyMultipleStats(e, updates).errors
    decreases |updates|
  {
    if m == |updates| {
      assert updates[..m] == updates;
    } else {
      var n := |updates| - 1;
      var prefix := updates[..n];
      assert prefix[..m] == updates[..m];
      LogsGrow(e, prefix, m);
      var before := ModifyMultipleStats(e, prefix);
      assert ModifyMultipleStats(e, updates) == BatchStep(before, updates[n].0, updates[n].1);
      StepKeepsLogs(before, updates[n].0, updates[n].1);
    }
  }

  /** The batch after the first `i` updates is the batch after the first
      `i - 1` with update `i - 1` applied. */
  lemma PrefixStep(e: Editor, updates: seq<(string, int)>, i: int)
    requires Valid(e) && 0 < i <= |updates|
    ensures ModifyMultipleStats(e, updates[..i]) ==
            BatchStep(ModifyMultipleStats(e, updates[..i - 1]), updates[i - 1].0, updates[i - 1].1)
  {
    assert updates[..i][..i - 1] == updates[..i - 1];
  }

  /** In any batch on a loaded editor, an entry with a known key and an
      in-range value is logged as applied, whatever else failed. */
  lemma BatchLogsApplied(e: Editor, updates: seq<(string, int)>, j: int)
    requires Valid(e) && e.saveData.Some? && 0 <= j < |updates|
    requires GetStatConfig(updates[j].0).Some? && 0 <= updates[j].1 <= MaxValue(GetStatConfig(updates[j].0).value.kind)
    ensures Applied(GetStatConfig(updates[j].0).value.name, updates[j].1) in ModifyMultipleStats(e, updates).success
  {
    PrefixStep(e, updates, j + 1);
    StepApplies(ModifyMultipleStats(e, updates[..j]), updates[j].0, updates[j].1);
    LogsGrow(e, updates, j + 1);
  }

  /** In any batch on a loaded editor, the field of an entry with a known
      key and an in-range value that no later entry overrides holds that
      value at the end, whatever else failed. */
  lemma BatchKeepsLastWrite(e: Editor, updates: seq<(string, int)>, j: int)
    requires Valid(e) && e.saveData.Some? && 0 <= j < |updates|
    requires GetStatConfig(updates[j].0).Some? && 0 <= updates[j].1 <= MaxValue(GetStatConfig(updates[j].0).value.kind)
    requires forall k :: j < k < |updates| ==> updates[k].0 != updates[j].0
    ensures ReadStat(ModifyMultipleStats(e, updates).editor.saveData.value, GetStatConfig(updates[j].0).value) == updates[j].1
  {
    PrefixStep(e, updates, j + 1);
    StepApplies(ModifyMultipleStats(e, updates[..j]), updates[j].0, updates[j].1);
    var c := GetStatConfig(updates[j].0).value;
    var mid := ModifyMultipleStats(e, updates[..j + 1]).editor.saveData.value;
    assert updates[..|updates|] == updates;
    var last := ModifyMultipleStats(e, updates).editor.saveData.value;
    forall p | InField(c, p)
      ensures last[p] == mid[p]
    {
      forall k | j + 1 <= k < |updates| && GetStatConfig(updates[k].0).Some?
        ensures !InField(GetStatConfig(updates[k].0).value, p)
      {
        DistinctKeysDisjoint(updates[j].0, updates[k].0, p);
      }
      FrameFrom(e, updates, j + 1, |updates|, p);
    }
    ReadStatFrame(last, mid, c);
  }

  /** In any batch on a loaded editor, an entry whose key is unknown or
      whose value is out of range is logged as refused with its reason. */
  lemma {:induction false} BatchLogsRefusal(e: Editor, updates: seq<(string, int)>, j: int)
    requires Valid(e) && e.saveData.Some? && 0 <= j < |updates|
    ensures GetStatConfig(updates[j].0).None? ==>
      Rejected(updates[j].0, UnknownStat(updates[j].0)) in ModifyMultipleStats(e, updates).errors
    ensures GetStatConfig(updates[j].0).Some? ==>
      var c := GetStatConfig(updates[j].0).value;
      !(0 <= updates[j].1 <= MaxValue(c.kind)) ==>
        Rejected(updates[j].0, OutOfRange(c.name, updates[j].1, MaxValue(c.kind))) in ModifyMultipleStats(e, updates).errors
    decreases |updates|
  {
    var n := |updates| - 1;
    var prefix := updates[..n];
    var before := ModifyMultipleStats(e, prefix);
    assert ModifyMultipleStats(e, updates) == BatchStep(before, updates[n].0, updates[n].1);
    if j < n {
      assert prefix[j] == updates[j];
      BatchLogsRefusal(e, prefix, j);
      StepKeepsLogs(before, updates[n].0, updates[n].1);
    } else {
      StepRefuses(before, updates[n].0, updates[n].1);
    }
  }

  /** One step of a loaded batch leaves alone a byte outside the field
      of its key. */
  lemma StepFrame(b: Batch, key: string, value: int, p: int)
    requires Valid(b.editor) && b.editor.saveData.Some? && 0 <= p < |b.editor.saveData.value|
    requires GetStatConfig(key).Some? ==> !InField(GetStatConfig(key).value, p)
    ensures BatchStep(b, key, value).editor.saveData.value[p] == b.editor.saveData.value[p]
  {
  }

  /** A byte that no known key among updates `m` to `i - 1` covers is
      the same after the first `i` updates as after the first `m`. */
  lemma {:induction false} FrameFrom(e: Editor, updates: seq<(string, int)>, m: int, i: int, p: int)
    requires Valid(e) && e.saveData.Some? && 0 <= m <= i <= |updates| && 0 <= p < |e.saveData.value|
    requires forall k :: m <= k < i && GetStatConfig(updates[k].0).Some? ==>
      !InField(GetStatConfig(updates[k].0).value, p)
    ensures ModifyMultipleStats(e, updates[..i]).editor.saveData.value[p] ==
            ModifyMultipleStats(e, updates[..m]).editor.saveData.value[p]
    decreases i
  {
    if m < i {
      FrameFrom(e, updates, m, i - 1, p);
      FrameAt(e, updates, i, p);
    }
  }

  /** Update `i - 1` leaves alone a byte outside the field of its key. */
  lemma FrameAt(e: Editor, updates: seq<(string, int)>, i: int, p: int)
    requires Valid(e) && e.saveData.Some? && 0 < i <= |updates| && 0 <= p < |e.saveData.value|
    requires GetStatConfig(updates[i - 1].0).Some? ==> !InField(GetStatConfig(updates[i - 1].0).value, p)
    ensures ModifyMultipleStats(e, updates[..i]).editor.saveData.value[p] ==
            ModifyMultipleStats(e, updates[..i - 1]).editor.saveData.value[p]
  {
    PrefixStep(e, updates, i);
    StepFrame(ModifyMultipleStats(e, updates[..i - 1]), updates[i - 1].0, updates[i - 1].1, p);
  }

  /** In any batch on a loaded editor, a byte outside the fields of the
      known keys the batch names is left as it was. */
  lemma BatchFrame(e: Editor, updates: seq<(string, int)>, p: int)
    requires Valid(e) && e.saveData.Some? && 0 <= p < |e.saveData.value|
    requires forall k :: 0 <= k < |updates| && GetStatConfig(updates[k].0).Some? ==>
      !InField(GetStatConfig(updates[k].0).value, p)
    ensures ModifyMultipleStats(e, updates).editor.saveData.value[p] == e.saveData.value[p]
  {
    FrameFrom(e, updates, 0, |updates|, p);
    assert updates[..|updates|] == updates;
  }

  /** A successful write of one statistic leaves every other statistic
      reading as before. */
  lemma ModifyKeepsOthers(e: Editor, key: string, value: int, other: string)
    requires Valid(e) && ModifyStat(e, key, value).result.Success?
    requires GetStatConfig(other).Some? && other != key
    ensures ReadStat(ModifyStat(e, key, value).editor.saveData.value, GetStatConfig(other).value) ==
            ReadStat(e.saveData.value, GetStatConfig(other).value)
  {
    var c := GetStatConfig(other).value;
    var a := ModifyStat(e, key, value).editor.saveData.value;
    forall p | InField(c, p)
      ensures a[p] == e.saveData.value[p]
    {
      DistinctKeysDisjoint(other, key, p);
    }
    ReadStatFrame(a, e.saveData.value, c);
  }

  /** `resetModifications`: with a pristine copy, the working buffer
      becomes that copy and the flag is cleared; otherwise nothing
      happens. */
  function ResetModifications(e: Editor): (r: Editor)
    requires Valid(e)
    ensures Valid(r)
    ensures e.originalData.Some? ==> r.saveData == e.originalData && !r.isModified
    ensures r.originalData == e.originalData && r.fileName == e.fileName
    ensures e.originalData.None? ==> r == e
  {
    if e.originalData.Some? then e.(saveData := e.originalData, isModified := false) else e
  }

  /** `getSaveData`: a copy of the working buffer, or a refusal when
      nothing is loaded. */
  function GetSaveData(e: Editor): (r: Result<seq<byte>, EditError>)
    ensures r.Success? <==> e.saveData.Some?
    ensures r.Success? ==> r.value == e.saveData.value
    ensures r.Failure? ==> r.error == NotLoaded
  {
    if e.saveData.None? then Failure(NotLoaded) else Success(e.saveData.value)
  }

  /** Loading a file and asking for the data gives the file back. */
  lemma LoadThenGet(e: Editor, data: seq<byte>, fileName: string)
    requires |data| == ExpectedFileSize
    ensures GetSaveData(LoadSaveFile(e, data, fileName).editor) == Success(data)
  {
  }

  /** Whatever batch of modifications follows a load, resetting returns
      the editor to the state the load produced. */
  lemma ResetUndoesBatch(e: Editor, data: seq<byte>, fileName: string, updates: seq<(string, int)>)
    requires |data| == ExpectedFileSize
    ensures
      var loaded := LoadSaveFile(e, data, fileName).editor;
      ResetModifications(ModifyMultipleStats(loaded, updates).editor) == loaded
  {
  }
}
