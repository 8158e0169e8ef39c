/** The editor's system operations: the progress counter, the checksum,
    finalisation before saving, the system summary, revalidation and the
    suggested name of the modified file. */
module EditorUtils {
  import opened Wrappers
  import opened Binary
  import opened Crypto
  import opened Offsets
  import opened Validation
  import opened EditorCore

  /** The counter after one increment: one more, wrapping from 255 to 0. */
  function NextCounter(c: byte): (r: byte)
    ensures r == if c == 255 then 0 else c + 1
  {
    // the JavaScript masks with `& 0xFF`, which for 1..256 is the remainder
    (c + 1) % 256
  }

  /** `incrementCounter`: refuses when nothing is loaded; otherwise the
      counter byte advances by one modulo 256, no other byte changes, the
      editor is marked modified and the new counter is returned. */
  function IncrementCounter(e: Editor): (o: Outcome<nat>)
    requires Valid(e)
    ensures Valid(o.editor)
    ensures e.saveData.None? ==> o == Outcome(e, Failure(NotLoaded))
    ensures e.saveData.Some? ==>
      var before := e.saveData.value;
      o.result.Success? && o.result.value == NextCounter(before[CounterOffset]) &&
      o.editor.saveData.Some? && |o.editor.saveData.value| == |before| &&
      o.editor.saveData.value[CounterOffset] == o.result.value &&
      (forall p :: 0 <= p < |before| && p != CounterOffset ==> o.editor.saveData.value[p] == before[p]) &&
      o.editor.isModified && o.editor.originalData == e.originalData && o.editor.fileName == e.fileName
  {
    if e.saveData.None? then Outcome(e, Failure(NotLoaded))
    else
      var buf := e.saveData.value;
      var next := NextCounter(buf[CounterOffset]);
      Outcome(e.(saveData := Some(buf[CounterOffset := next]), isModified := true), Success(next))
  }

  /** The editor after `n` increments. */
  function Increments(e: Editor, n: nat): (r: Editor)
    requires Valid(e)
    ensures Valid(r)
    decreases n
  {
    if n == 0 then e else IncrementCounter(Increments(e, n - 1)).editor
  }

  /** `n` increments add `n` to the counter modulo 256 and change no other
      byte. */
  lemma {:induction false} IncrementsAdd(e: Editor, n: nat)
    requires Valid(e) && e.saveData.Some?
    ensures Increments(e, n).saveData == Some(e.saveData.value[CounterOffset := (e.saveData.value[CounterOffset] + n) % 256])
    decreases n
  {
    if n > 0 {
      IncrementsAdd(e, n - 1);
      var buf := e.saveData.value;
      var c := buf[CounterOffset];
      var mid := buf[CounterOffset := (c + n - 1) % 256];
      assert Increments(e, n - 1).saveData == Some(mid);
      NextCounterMod(c, n);
      var after := IncrementCounter(Increments(e, n - 1)).editor.saveData.value;
      assert after == mid[CounterOffset := NextCounter(mid[CounterOffset])];
      assert mid[CounterOffset := (c + n) % 256] == buf[CounterOffset := (c + n) % 256];
    } else {
      var buf := e.saveData.value;
      assert buf[CounterOffset := buf[CounterOffset] % 256] == buf;
    }
  }

  lemma NextCounterMod(c: byte, n: nat)
    requires n > 0
    ensures NextCounter(((c + n - 1) % 256) as byte) == (c + n) % 256
  {
  }

  /** Any whole number of 256 increments brings the data back to where
      it started. */
  lemma IncrementCycle(e: Editor, n: nat)
    requires Valid(e) && e.saveData.Some? && n % 256 == 0
    ensures Increments(e, n).saveData == e.saveData
  {
    IncrementsAdd(e, n);
    var buf := e.saveData.value;
    assert (buf[CounterOffset] + n) % 256 == buf[CounterOffset];
    assert buf[CounterOffset := buf[CounterOffset]] == buf;
  }

  /** `setCounter`: refuses when nothing is loaded, then refuses a value
      outside 0 to 255; otherwise the counter byte becomes the value, no
      other byte changes, and the editor is marked modified. A refusal
      changes nothing. */
  function SetCounter(e: Editor, v: int): (o: Outcome<()>)
    requires Valid(e)
    ensures Valid(o.editor)
    ensures o.result.Success? <==> e.saveData.Some? && 0 <= v <= 255
    ensures o.result.Failure? ==> o.editor == e
    ensures e.saveData.None? ==> o.result == Failure(NotLoaded)
    ensures e.saveData.Some? && !(0 <= v <= 255) ==> o.result == Failure(CounterOutOfRange(v))
    ensures o.result.Success? ==>
      var before := e.saveData.value;
      o.editor.saveData.Some? && |o.editor.saveData.value| == |before| &&
      o.editor.saveData.value[CounterOffset] == v &&
      (forall p :: 0 <= p < |before| && p != CounterOffset ==> o.editor.saveData.value[p] == before[p]) &&
      o.editor.isModified && o.editor.originalData == e.originalData && o.editor.fileName == e.fileName
  {
    if e.saveData.None? then Outcome(e, Failure(NotLoaded))
    else if v < 0 || v > 255 then Outcome(e, Failure(CounterOutOfRange(v)))
    else Outcome(e.(saveData := Some(e.saveData.value[CounterOffset := v]), isModified := true), Success(()))
  }

  /** Setting the counter to its successor is an increment. */
  lemma SetSuccessorIsIncrement(e: Editor)
    requires Valid(e) && e.saveData.Some?
    ensures SetCounter(e, NextCounter(e.saveData.value[CounterOffset])).editor == IncrementCounter(e).editor
  {
  }

  /** `buf` with the four checksum bytes cleared, as the copy
      `updateChecksum` hashes. */
  function ZeroChecksumField(buf: seq<byte>): (r: seq<byte>)
    requires ChecksumOffset + ChecksumSize <= |buf|
    ensures |r| == |buf|
    ensures forall p :: 0 <= p < |buf| ==>
      r[p] == if ChecksumOffset <= p < ChecksumOffset + ChecksumSize then 0 else buf[p]
  {
    buf[..ChecksumOffset] + [0, 0, 0, 0] + buf[ChecksumOffset + ChecksumSize..]
  }

  /** The checksum a file must carry: the vendor checksum of the file
      with its checksum field cleared. */
  function ChecksumOf(buf: seq<byte>): (r: nat)
    requires ChecksumOffset + ChecksumSize <= |buf|
    ensures r < U32Limit
  {
    VendorChecksum(ZeroChecksumField(buf)) as int
  }

  /** The stored checksum is the one the file must carry. */
  ghost predicate ChecksumConsistent(buf: seq<byte>)
  {
    ChecksumOffset + ChecksumSize <= |buf| && ReadUint32LE(buf, ChecksumOffset) == ChecksumOf(buf)
  }

  /** What is written into the checksum field does not change the cleared
      copy, hence not the checksum the file must carry. */
  lemma ChecksumIgnoresField(buf: seq<byte>, v: int)
    requires ChecksumOffset + ChecksumSize <= |buf|
    ensures ZeroChecksumField(WriteUint32LE(buf, ChecksumOffset, v)) == ZeroChecksumField(buf)
    ensures ChecksumOf(WriteUint32LE(buf, ChecksumOffset, v)) == ChecksumOf(buf)
  {
    var a := ZeroChecksumField(WriteUint32LE(buf, ChecksumOffset, v));
    var b := ZeroChecksumField(buf);
    assert forall p :: 0 <= p < |buf| ==> a[p] == b[p];
    assert a == b;
  }

  /** `updateChecksum`: refuses when nothing is loaded; otherwise stores,
      little-endian at the checksum offset, the checksum of the data with
      that field cleared, and returns it. Nothing else changes, and the
      modified flag is left alone. */
  function UpdateChecksum(e: Editor): (o: Outcome<nat>)
    requires Valid(e)
    ensures Valid(o.editor)
    ensures e.saveData.None? ==> o == Outcome(e, Failure(NotLoaded))
    ensures e.saveData.Some? ==>
      var before := e.saveData.value;
      o.result.Success? && o.result.value == ChecksumOf(before) &&
      o.editor.saveData.Some? && |o.editor.saveData.value| == |before| &&
      ChecksumConsistent(o.editor.saveData.value) &&
      ReadUint32LE(o.editor.saveData.value, ChecksumOffset) == o.result.value &&
      (forall p :: 0 <= p < |before| && !(ChecksumOffset <= p < ChecksumOffset + ChecksumSize) ==>
        o.editor.saveData.value[p] == before[p]) &&
      o.editor == e.(saveData := o.editor.saveData)
  {
    if e.saveData.None? then Outcome(e, Failure(NotLoaded))
    else
      var buf := e.saveData.value;
      var sum := ChecksumOf(buf);
      var after := WriteUint32LE(buf, ChecksumOffset, sum);
      ChecksumIgnoresField(buf, sum);
      ReadAfterWrite32(buf, ChecksumOffset, sum);
      Outcome(e.(saveData := Some(after)), Success(sum))
  }

  /** On data whose checksum is already consistent, updating it changes
      nothing and returns the stored checksum. */
  lemma UpdateConsistentIsNoop(e: Editor)
    requires Valid(e) && e.saveData.Some? && ChecksumConsistent(e.saveData.value)
    ensures UpdateChecksum(e) == Outcome(e, Success(ReadUint32LE(e.saveData.value, ChecksumOffset)))
  {
    WriteWhatWasRead32(e.saveData.value, ChecksumOffset);
  }

  /** Updating the checksum twice is updating it once. */
  lemma UpdateChecksumIdempotent(e: Editor)
    requires Valid(e)
    ensures UpdateChecksum(UpdateChecksum(e).editor) == UpdateChecksum(e)
  {
    if e.saveData.Some? {
      var once := UpdateChecksum(e);
      UpdateConsistentIsNoop(once.editor);
      assert ReadUint32LE(once.editor.saveData.value, ChecksumOffset) == once.result.value;
    }
  }

  /** What `finalizeSave` reports. */
  datatype Finalized = Finalized(counter: nat, checksum: nat, size: nat)

  /** `finalizeSave`: refuses unless a file is loaded and modified;
      otherwise increments the counter and then updates the checksum, so
      that the stored checksum covers the new counter. */
  function FinalizeSave(e: Editor): (o: Outcome<Finalized>)
    requires Valid(e)
    ensures Valid(o.editor)
    ensures o.result.Failure? <==> e.saveData.None? || !e.isModified
    ensures o.result.Failure? ==> o == Outcome(e, Failure(NothingToFinalize))
    ensures o.result.Success? ==> o.editor.saveData.Some?
    ensures o.result.Success? ==>
      var before := e.saveData.value;
      var after := o.editor.saveData.value;
      |after| == |before| &&
      after[CounterOffset] == NextCounter(before[CounterOffset]) &&
      ChecksumConsistent(after) &&
      (forall p :: 0 <= p < |before| && p != CounterOffset && !(ChecksumOffset <= p < ChecksumOffset + ChecksumSize) ==>
        after[p] == before[p]) &&
      o.result.value == Finalized(after[CounterOffset], ReadUint32LE(after, ChecksumOffset), ExpectedFileSize) &&
      o.editor.isModified && o.editor.originalData == e.originalData && o.editor.fileName == e.fileName
  {
    if e.saveData.None? || !e.isModified then Outcome(e, Failure(NothingToFinalize))
    else
      var counted := IncrementCounter(e);
      var summed := UpdateChecksum(counted.editor);
      Outcome(summed.editor, Success(Finalized(counted.result.value, summed.result.value, |summed.editor.saveData.value|)))
  }

  /** The system summary of a loaded file. */
  datatype SystemInfo = SystemInfo(checksum: nat, counter: nat, size: nat, fileName: string, isModified: bool)

  /** `getSystemInfo`: nothing when no file is loaded; otherwise the stored
      checksum and counter, the length, the name and the modified flag. */
  function GetSystemInfo(e: Editor): (r: Option<SystemInfo>)
    requires Valid(e)
    ensures r.Some? <==> e.saveData.Some?
    ensures r.Some? ==> r.value.size == ExpectedFileSize && r.value.counter < 256 && r.value.checksum < U32Limit
    ensures r.Some? ==>
      r.value.checksum == ReadUint32LE(e.saveData.value, ChecksumOffset) &&
      r.value.counter == e.saveData.value[CounterOffset]
    ensures r.Some? ==> r.value.fileName == e.fileName && r.value.isModified == e.isModified
  {
    if e.saveData.None? then None
    else
      var buf := e.saveData.value;
      Some(SystemInfo(ReadUint32LE(buf, ChecksumOffset), buf[CounterOffset], |buf|, e.fileName, e.isModified))
  }

  /** `validateCurrentFile`: refuses when nothing is loaded; otherwise the
      validator's report on the working buffer. */
  function ValidateCurrentFile(e: Editor): (r: Result<Report, EditError>)
    requires Valid(e)
    ensures r.Failure? <==> e.saveData.None?
    ensures r.Failure? ==> r.error == NotLoaded
    ensures r.Success? ==> r.value == ValidateSaveFileSimple(e.saveData.value)
  {
    if e.saveData.None? then Failure(NotLoaded) else Success(ValidateSaveFileSimple(e.saveData.value))
  }

  /** The working buffer of a reachable editor always passes validation,
      and the report agrees with the system summary. */
  lemma LoadedFileStaysValid(e: Editor)
    requires Valid(e) && e.saveData.Some?
    ensures ValidateCurrentFile(e).Success? && ValidateCurrentFile(e).value.valid
    ensures ValidateCurrentFile(e).value.checksum == GetSystemInfo(e).value.checksum
    ensures ValidateCurrentFile(e).value.counter == GetSystemInfo(e).value.counter
  {
  }

  /** After finalisation the summary shows the counter and the checksum
      that finalisation reported, and the checksum is consistent. */
  lemma FinalizeThenInfo(e: Editor)
    requires Valid(e) && FinalizeSave(e).result.Success?
    ensures
      var o := FinalizeSave(e);
      var info := GetSystemInfo(o.editor).value;
      info.counter == o.result.value.counter && info.checksum == o.result.value.checksum &&
      info.checksum == ChecksumOf(o.editor.saveData.value) && info.isModified
  {
  }

  /** The decimal digit `d`. */
  function DigitChar(d: nat): (c: char)
    requires d < 10
    ensures '0' <= c <= '9' && c as int - '0' as int == d
  {
    "0123456789"[d]
  }

  predicate IsDigits(s: string)
  {
    forall i :: 0 <= i < |s| ==> '0' <= s[i] <= '9'
  }

  /** A number as JavaScript prints it in a template: its decimal digits,
      with no leading zero. */
  function NatToString(n: nat): (s: string)
    ensures |s| >= 1 && IsDigits(s)
    ensures |s| > 1 ==> s[0] != '0'
    decreases n
  {
    if n < 10 then [DigitChar(n)] else NatToString(n / 10) + [DigitChar(n % 10)]
  }

  /** The number a string of decimal digits denotes. */
  function DigitsValue(s: string): nat
    requires IsDigits(s)
  {
    if |s| == 0 then 0 else DigitsValue(s[..|s| - 1]) * 10 + (s[|s| - 1] as int - '0' as int)
  }

  /** Reading back the printed digits gives the number. */
  lemma {:induction false} DecimalRoundTrip(n: nat)
    ensures DigitsValue(NatToString(n)) == n
    decreases n
  {
    if n >= 10 {
      DecimalRoundTrip(n / 10);
      var s := NatToString(n);
      assert s[..|s| - 1] == NatToString(n / 10);
    }
  }

  /** The name with one trailing ".dat" removed, as `replace(/\.dat$/, '')`
      does. */
  function StripDat(name: string): (r: string)
    ensures r == name || r + ".dat" == name
    ensures |name| >= 4 && name[|name| - 4..] == ".dat" ==> r + ".dat" == name
  {
    if |name| >= 4 && name[|name| - 4..] == ".dat" then name[..|name| - 4] else name
  }

  /** Only the last ".dat" goes. */
  lemma StripDatOnce(base: string)
    ensures StripDat(base + ".dat") == base
  {
    assert (base + ".dat")[|base|..] == ".dat";
  }

  const DefaultModifiedName: string := "userdata_modified.dat"

  /** The counter as the suggested name shows it. */
  function CounterText(info: Option<SystemInfo>): (r: string)
    ensures info.None? ==> r == "unknown"
    ensures info.Some? ==> IsDigits(r) && DigitsValue(r) == info.value.counter
  {
    match info
    case None => "unknown"
    case Some(i) =>
      DecimalRoundTrip(i.counter);
      NatToString(i.counter)
  }

  /** The suggested name of the modified file: a fixed name when the
      editor has no file name, and otherwise the name without ".dat",
      the counter, and "_modified.dat". */
  function ModifiedFileName(e: Editor): (r: string)
    requires Valid(e)
    ensures |e.fileName| == 0 ==> r == DefaultModifiedName
    ensures |e.fileName| > 0 ==>
      var base := StripDat(e.fileName);
      |r| >= |base| + 9 + 13 &&
      r[..|base| + 9] == base + "_counter_" && r[|r| - 13..] == "_modified.dat" &&
      r[|base| + 9..|r| - 13] == CounterText(GetSystemInfo(e))
  {
    if |e.fileName| == 0 then DefaultModifiedName
    else
      var base := StripDat(e.fileName);
      var r := base + "_counter_" + CounterText(GetSystemInfo(e)) + "_modified.dat";
      assert r[..|base| + 9] == base + "_counter_";
      assert r[|r| - 13..] == "_modified.dat";
      assert r[|base| + 9..|r| - 13] == CounterText(GetSystemInfo(e));
      r
  }

  /** The counter shown in the suggested name is the file's counter. */
  lemma ModifiedFileNameShowsCounter(e: Editor)
    requires Valid(e) && e.saveData.Some? && |e.fileName| > 0
    ensures
      var r := ModifiedFileName(e);
      var digits := r[|StripDat(e.fileName)| + 9..|r| - 13];
      IsDigits(digits) && DigitsValue(digits) == e.saveData.value[CounterOffset]
  {
  }

  /** `generateModifiedFileName` as written: the counter falls back to
      "unknown" through `||`, which also replaces a counter of 0. */
  function GenerateModifiedFileNameAsWritten(e: Editor): (r: string)
    requires Valid(e)
    ensures |e.fileName| == 0 ==> r == DefaultModifiedName
    ensures e.saveData.Some? && e.saveData.value[CounterOffset] != 0 ==> r == ModifiedFileName(e)
    ensures |e.fileName| > 0 && (e.saveData.None? || e.saveData.value[CounterOffset] == 0) ==>
      r == StripDat(e.fileName) + "_counter_unknown_modified.dat"
  {
    if |e.fileName| == 0 then DefaultModifiedName
    else
      var base := StripDat(e.fileName);
      var info := GetSystemInfo(e);
      var counter := if info.None? || info.value.counter == 0 then "unknown" else NatToString(info.value.counter);
      base + "_counter_" + counter + "_modified.dat"
  }

  /** A loaded "save.dat" whose counter is 0 is named as if no counter
      were known. */
  lemma ZeroCounterNamedUnknown(e: Editor)
    requires Valid(e) && e.saveData.Some? && e.saveData.value[CounterOffset] == 0 && e.fileName == "save.dat"
    ensures GenerateModifiedFileNameAsWritten(e) == "save_counter_unknown_modified.dat"
    ensures ModifiedFileName(e) == "save_counter_0_modified.dat"
  {
    SaveBase();
    var info := GetSystemInfo(e);
    assert info.Some? && info.value.counter == 0;
    assert CounterText(info) == "0";
    NameLiterals();
  }

  lemma SaveBase()
    ensures StripDat("save.dat") == "save"
  {
    StripDatOnce("save");
    assert "save" + ".dat" == "save.dat";
  }

  lemma NameLiterals()
    ensures "save" + "_counter_" + "unknown" + "_modified.dat" == "save_counter_unknown_modified.dat"
    ensures "save" + "_counter_" + "0" + "_modified.dat" == "save_counter_0_modified.dat"
  {
  }
}
