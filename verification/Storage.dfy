/** Scratch files, read through one cached page per run. A file is the
    sequence of fixed-size records it holds. */
module Storage {
  import opened Prelude

  /** Descriptors of 128 bytes in a page of 64 KiB. */
  const PAGE_RECORDS: nat := 512

  /** A page's buffer; `base` is the first record of the page it claims to
      hold, if it does, and `count` how many records it claims. */
  datatype ReadPage<T> = ReadPage(base: Option<nat>, buffer: seq<T>, count: nat)

  /** A load that fails once `after` records are read, `torn` being what the
      next one is by then. */
  datatype Fault<T> = Fault(after: nat, torn: T)

  function NewPage<T>(blank: T): ReadPage<T> {
    ReadPage(None, seq(PAGE_RECORDS, _ => blank), 0)
  }

  function BaseOf(index: nat): nat {
    index / PAGE_RECORDS * PAGE_RECORDS
  }

  /** How many records a load of the page at `base` asks for, when the file is
      charged with `claimed` records. */
  function CountAt(claimed: nat, base: nat): nat {
    Min(Sub(claimed, base), PAGE_RECORDS)
  }

  /** A page that claims something holds what the file holds there. */
  ghost predicate PageOk<T>(page: ReadPage<T>, file: seq<T>) {
    && |page.buffer| == PAGE_RECORDS
    && (page.base.Some? ==>
          && page.count == CountAt(|file|, page.base.value)
          && (page.count > 0 ==>
                page.buffer[..page.count] == file[page.base.value..page.base.value + page.count]))
  }

  /** The page can be asked for record `index`: what it claims is true, or is
      about other records. */
  ghost predicate MayAsk<T>(page: ReadPage<T>, file: seq<T>, index: nat) {
    |page.buffer| == PAGE_RECORDS && (page.base == Some(BaseOf(index)) ==> PageOk(page, file))
  }

  lemma Asks<T>(page: ReadPage<T>, file: seq<T>, index: nat)
    requires PageOk(page, file)
    ensures MayAsk(page, file, index)
  {}

  /** The page that record `index` lies on can be loaded: as many records as
      will be asked for are there. */
  predicate Readable<T>(file: seq<T>, claimed: nat, index: nat) {
    index < |file| && BaseOf(index) + CountAt(claimed, BaseOf(index)) <= |file|
  }

  /** A file charged with more records than it holds cannot be read to its end,
      unless that is the end of a page. */
  lemma EveryRecordReadable<T>(file: seq<T>, claimed: nat)
    requires |file| <= claimed
    ensures (forall index: nat :: index < |file| ==> Readable(file, claimed, index))
            <==> claimed == |file| || |file| % PAGE_RECORDS == 0
  {
    if claimed > |file| && |file| % PAGE_RECORDS != 0 {
      assert !Readable(file, claimed, |file| - 1);
    }
  }

  /** What a failed load for record `index` leaves: some records of the new
      page over those of the old one, which it still claims to be. */
  function Spoilt<T>(page: ReadPage<T>, file: seq<T>, claimed: nat, index: nat, fault: Fault<T>): ReadPage<T>
    requires BaseOf(index) <= |file| && fault.after < Min(CountAt(claimed, BaseOf(index)), Sub(|file|, BaseOf(index)))
    requires |page.buffer| == PAGE_RECORDS
  {
    var base, k := BaseOf(index), fault.after;
    page.(buffer := file[base..base + k] + [fault.torn] + page.buffer[k + 1..], count := CountAt(claimed, base))
  }

  /** What a read that meets no fault returns. */
  function ReadFrom<T>(page: ReadPage<T>, file: seq<T>, claimed: nat, index: nat): Result<T>
    requires |page.buffer| == PAGE_RECORDS
  {
    if page.base != Some(BaseOf(index)) then
      if Readable(file, claimed, index) then Ok(file[index]) else Err(InvalidScratch)
    else if index - BaseOf(index) < page.count && index - BaseOf(index) < PAGE_RECORDS then
      Ok(page.buffer[index - BaseOf(index)])
    else Err(InvalidScratch)
  }

  /** Reads record `index`, loading its page unless the one held claims to be
      it. It fails only for a record that is not readable or when the load
      does, and then the same record may be asked for again. */
  method Record<T>(page: ReadPage<T>, file: seq<T>, claimed: nat, index: nat, fault: Option<Fault<T>>)
    returns (r: Result<T>, page': ReadPage<T>)
    requires MayAsk(page, file, index) && |file| <= claimed
    ensures r.Ok? ==> PageOk(page', file) && index < |file| && r.value == file[index]
    ensures r.Err? ==> r.error == InvalidScratch || r.error == ScratchIo
    ensures r == Err(InvalidScratch) ==> !Readable(file, claimed, index)
    ensures r == Err(ScratchIo) ==>
              && fault.Some? && page.base != Some(BaseOf(index)) && BaseOf(index) <= |file|
              && fault.value.after < Min(CountAt(claimed, BaseOf(index)), Sub(|file|, BaseOf(index)))
              && page' == Spoilt(page, file, claimed, index, fault.value)
    ensures MayAsk(page', file, index)
    ensures fault.None? ==> r == ReadFrom(page, file, claimed, index)
  {
    page' := page;
    var base := BaseOf(index);
    if page.base != Some(base) {
      if claimed < base {
        return Err(InvalidScratch), page';
      }
      var count := CountAt(claimed, base);
      var there := Min(count, Sub(|file|, base));
      if fault.Some? && fault.value.after < there {
        return Err(ScratchIo), Spoilt(page, file, claimed, index, fault.value);
      }
      var held := if base < |file| then file[base..base + there] else [];
      page' := page.(buffer := held + page.buffer[there..], count := count);
      if there < count {
        return Err(InvalidScratch), page';
      }
      page' := page'.(base := Some(base));
    }
    if index - base >= page'.count {
      return Err(InvalidScratch), page';
    }
    assert page'.buffer[..page'.count][index - base] == file[base..base + page'.count][index - base];
    r := Ok(page'.buffer[index - base]);
  }

  /** After a failed load every fault leaves record `other` readable exactly when
      it does not lie on the page still claimed. In particular the record that
      could not be loaded can be. */
  lemma AfterFailedLoad<T(!new)>(page: ReadPage<T>, file: seq<T>, index: nat, other: nat)
    requires PageOk(page, file) && index < |file| && other < |file| && page.base != Some(BaseOf(index))
    requires forall i, j :: 0 <= i < j < |file| ==> file[i] != file[j]
    ensures BaseOf(index) < |file| && 0 < CountAt(|file|, BaseOf(index)) <= |file| - BaseOf(index)
    ensures (forall fault: Fault<T> | fault.after < CountAt(|file|, BaseOf(index)) ::
               ReadFrom(Spoilt(page, file, |file|, index, fault), file, |file|, other) == Ok(file[other]))
            <==> page.base != Some(BaseOf(other))
  {
    var base, count, at := BaseOf(index), CountAt(|file|, BaseOf(index)), other - BaseOf(other);
    if page.base == Some(BaseOf(other)) {
      var fault := Fault(if at < count then at else 0, file[base]);
      var bad := Spoilt(page, file, |file|, index, fault);
      assert BaseOf(other) != base && other != base;
      assert at < count ==> bad.buffer[at] == file[base];
      assert ReadFrom(bad, file, |file|, other) != Ok(file[other]);
    }
  }

  /** A file of 513 records whose first page is held. Loading the last record
      fails, and the page then gives that record for the first one, while the
      last one is read right. */
  lemma SpoiltPageMisleads(file: seq<nat>, page: ReadPage<nat>)
    requires file == seq(513, i => i)
    requires page == ReadPage(Some(0), file[..PAGE_RECORDS], PAGE_RECORDS)
    ensures PageOk(page, file)
    ensures var spoilt := Spoilt(page, file, 513, 512, Fault(0, 512));
            && ReadFrom(spoilt, file, 513, 0) == Ok(512) && ReadFrom(spoilt, file, 513, 1) == Err(InvalidScratch)
            && ReadFrom(spoilt, file, 513, 512) == Ok(512)
  {}

  /** How a write ends: the quota refuses its charge, or the disk the bytes. */
  datatype WriteFault = OverQuota | Unwritten

  /** Appends a record. The charge is made first and stays when the disk then
      refuses the bytes. */
  method Append<T>(file: seq<T>, claimed: nat, x: T, fault: Option<WriteFault>)
    returns (r: Result<()>, file': seq<T>, claimed': nat)
    ensures match fault
            case None => r == Ok(()) && file' == file + [x] && claimed' == claimed + 1
            case Some(OverQuota) => r == Err(Quota) && file' == file && claimed' == claimed
            case Some(Unwritten) => r == Err(ScratchIo) && file' == file && claimed' == claimed + 1
  {
    file', claimed' := file, claimed;
    if fault == Some(OverQuota) {
      return Err(Quota), file', claimed';
    }
    claimed' := claimed + 1;
    if fault == Some(Unwritten) {
      return Err(ScratchIo), file', claimed';
    }
    file' := file + [x];
    r := Ok(());
  }

  /** A memory reservation. */
  method Reserve(calm: bool) returns (r: Result<()>)
    ensures r.Err? ==> !calm && r.error == Allocation
  {
    var failed := Disturbed(calm);
    r := if failed then Err(Allocation) else Ok(());
  }
}
