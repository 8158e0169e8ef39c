/** The validators: a permissive whole-file check whose only gate is the
    file length, and a range check for a value about to be written into a
    statistic. */
module Validation {
  import opened Wrappers
  import opened Binary
  import opened Offsets

  /** The length of every save file the editor accepts. */
  const ExpectedFileSize: nat := 80736

  datatype FileError = WrongSize(actual: nat)

  /** The validator's report. `checksum` and `counter` are the values
      stored in the file, or 0 when the file is refused. */
  datatype Report = Report(valid: bool, size: nat, expectedSize: nat, checksum: nat, counter: nat, errors: seq<FileError>)

  /** `validateSaveFileSimple`: accepts exactly the files of the expected
      length, whatever their checksum or signature, and reports the stored
      checksum and counter. */
  function ValidateSaveFileSimple(data: seq<byte>): (r: Report)
    ensures r.size == |data| && r.expectedSize == ExpectedFileSize
    ensures r.valid <==> |data| == ExpectedFileSize
    ensures !r.valid ==> r.errors == [WrongSize(|data|)] && r.checksum == 0 && r.counter == 0
    ensures r.valid ==> r.errors == [] && r.checksum == ReadUint32LE(data, ChecksumOffset) && r.counter == data[CounterOffset]
    ensures r.checksum < U32Limit && r.counter < 256
  {
    if |data| != ExpectedFileSize then
      Report(false, |data|, ExpectedFileSize, 0, 0, [WrongSize(|data|)])
    else
      Report(true, |data|, ExpectedFileSize, ReadUint32LE(data, ChecksumOffset), data[CounterOffset], [])
  }

  /** Both system locations and every statistic lie inside a file of the
      accepted length. */
  lemma LayoutFitsFile()
    ensures ChecksumOffset + ChecksumSize <= ExpectedFileSize
    ensures CounterOffset + 1 <= ExpectedFileSize
    ensures forall i :: 0 <= i < |Stats| ==> Stats[i].config.offset + Stats[i].config.size <= ExpectedFileSize
  {
  }

  /** The first four bytes (where a Switch save carries "SUTC") never
      change the report: files that differ only there are judged alike. */
  lemma SignatureIrrelevant(a: seq<byte>, b: seq<byte>)
    requires |a| == |b| && |a| >= 4
    requires a[4..] == b[4..]
    ensures ValidateSaveFileSimple(a) == ValidateSaveFileSimple(b)
  {
    if |a| == ExpectedFileSize {
      assert forall k :: 4 <= k < |a| ==> a[k] == a[4..][k - 4] == b[4..][k - 4] == b[k];
    }
  }

  /** A checksum written into an accepted file is the checksum the
      validator then reports. */
  lemma ReportsWrittenChecksum(data: seq<byte>, v: nat)
    requires |data| == ExpectedFileSize && v < U32Limit
    ensures ValidateSaveFileSimple(WriteUint32LE(data, ChecksumOffset, v)).checksum == v
  {
    ReadAfterWrite32(data, ChecksumOffset, v);
  }

  datatype ValueError =
    | UnknownStatistic(name: string)
    | NegativeValue
    | AboveMaximum(max: nat)

  /** `validateStatValue`: an unknown name is refused before the value is
      looked at; a known one accepts exactly the numbers from 0 to the
      field's maximum, and yields their floor. */
  function ValidateStatValue(name: string, value: real): (r: Result<int, ValueError>)
    ensures GetStatConfig(name).None? ==> r == Failure(UnknownStatistic(name))
    ensures r.Success? <==> GetStatConfig(name).Some? && 0.0 <= value <= MaxValue(GetStatConfig(name).value.kind) as real
    ensures r.Success? ==> 0 <= r.value <= MaxValue(GetStatConfig(name).value.kind)
    ensures r.Success? ==> r.value as real <= value < r.value as real + 1.0
  {
    match GetStatConfig(name)
    case None => Failure(UnknownStatistic(name))
    case Some(config) =>
      var max := MaxValue(config.kind);
      if value < 0.0 then Failure(NegativeValue)
      else if value > max as real then Failure(AboveMaximum(max))
      else Success(value.Floor)
  }

  /** `validateStatValue` as written, where the name is looked up with the
      property access that also reaches inherited names; an inherited
      value has no `type`, so it is given the 16-bit maximum. */
  function ValidateStatValueAsWritten(name: string, value: real): (r: Result<int, ValueError>)
    ensures PropertyOf(name).Own? ==> r == ValidateStatValue(name, value)
    ensures PropertyOf(name).Undefined? ==> r == Failure(UnknownStatistic(name))
    ensures PropertyOf(name).Inherited? ==> (r.Success? <==> 0.0 <= value <= 0xFFFF as real)
    ensures PropertyOf(name).Inherited? && r.Success? ==> r.value as real <= value < r.value as real + 1.0
  {
    match PropertyOf(name)
    case Undefined => Failure(UnknownStatistic(name))
    case Own(config) =>
      var max := MaxValue(config.kind);
      if value < 0.0 then Failure(NegativeValue)
      else if value > max as real then Failure(AboveMaximum(max))
      else Success(value.Floor)
    case Inherited =>
      if value < 0.0 then Failure(NegativeValue)
      else if value > 0xFFFF as real then Failure(AboveMaximum(0xFFFF))
      else Success(value.Floor)
  }

  /** The name `toString`, which is no statistic, passes the validator as
      written. */
  lemma InheritedNameValidates()
    ensures ValidateStatValueAsWritten("toString", 5.0) == Success(5)
    ensures ValidateStatValue("toString", 5.0) == Failure(UnknownStatistic("toString"))
  {
    InheritedNameIsFound();
  }
}
