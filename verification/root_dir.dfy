/** Name lookup in the loaded root directory (`searchFile` in
    cab_file_taker.cpp): a linear scan of the first `n_root_entries`
    entries in which the first match wins. */
module RootDirectory {
  import opened Bytes
  import opened Wrappers
  import opened BootRecords
  import opened DirEntries

  /** The C string stored in a name array: its bytes up to the first NUL. */
  function CString(chars: seq<byte>): (s: seq<byte>)
    ensures |s| <= |chars| && s == chars[..|s|]
    ensures forall k | 0 <= k < |s| :: s[k] != 0
    ensures |s| < |chars| ==> chars[|s|] == 0
  {
    if |chars| == 0 || chars[0] == 0 then []
    else [chars[0]] + CString(chars[1..])
  }

  /** The name `std::string(entry.file_name)` holds. */
  function NameOf(e: DirEntry): (name: seq<byte>) {
    CString(e.fileName)
  }

  /** The scan from entry `i` on: the first index in `[i, n)` whose name
      is `name`. */
  function FindFrom(entries: seq<DirEntry>, n: nat, name: seq<byte>, i: nat): (r: Option<nat>)
    requires i <= n <= |entries|
    ensures r.Some? ==> i <= r.value < n && NameOf(entries[r.value]) == name
    ensures r.Some? ==> forall j | i <= j < r.value :: NameOf(entries[j]) != name
    ensures r.None? <==> forall j | i <= j < n :: NameOf(entries[j]) != name
    decreases n - i
  {
    if i == n then None
    else if NameOf(entries[i]) == name then Some(i)
    else FindFrom(entries, n, name, i + 1)
  }

  /** The lookup loop of `searchFile`, reporting the first match among the
      first `n` entries as an index, or `None` when nothing matches. */
  function FindByName(entries: seq<DirEntry>, n: nat, name: seq<byte>): (r: Option<nat>)
    requires n <= |entries|
    ensures r.Some? ==> r.value < n && NameOf(entries[r.value]) == name
    ensures r.Some? ==> forall j | 0 <= j < r.value :: NameOf(entries[j]) != name
    ensures r.None? <==> forall j | 0 <= j < n :: NameOf(entries[j]) != name
  {
    FindFrom(entries, n, name, 0)
  }

  /** `searchFile`, as written: the loop leaves `index` at 0 both when no
      entry matches and when entry 0 is the first match, and index 0 is
      answered with the empty entry. */
  function SearchFile(entries: seq<DirEntry>, record: BootRecord, name: seq<byte>): (r: DirEntry)
    requires record.nRootEntries <= |entries|
    ensures forall i | 0 < i < record.nRootEntries ::
      NameOf(entries[i]) == name && (forall j | 0 <= j < i :: NameOf(entries[j]) != name) ==> r == entries[i]
    ensures (forall j | 0 <= j < record.nRootEntries :: NameOf(entries[j]) != name) ==> r == EmptyEntry()
    ensures 0 < record.nRootEntries && NameOf(entries[0]) == name ==> r == EmptyEntry()
  {
    var index := match FindByName(entries, record.nRootEntries, name)
      case Some(i) => i
      case None => 0;
    if index == 0 then EmptyEntry() else entries[index]
  }

  /** The lookup with "not found" kept apart from index 0: the first entry
      whose name matches, or `None`. */
  function SearchFileCorrected(entries: seq<DirEntry>, record: BootRecord, name: seq<byte>): (r: Option<DirEntry>)
    requires record.nRootEntries <= |entries|
    ensures r.None? <==> forall j | 0 <= j < record.nRootEntries :: NameOf(entries[j]) != name
    ensures forall i | 0 <= i < record.nRootEntries ::
      NameOf(entries[i]) == name && (forall j | 0 <= j < i :: NameOf(entries[j]) != name) ==> r == Some(entries[i])
  {
    match FindByName(entries, record.nRootEntries, name)
    case Some(i) => Some(entries[i])
    case None => None
  }

  /** Away from entry 0 the two lookups agree, the empty entry standing for
      "not found". */
  lemma SearchFileAgreesAwayFromZero(entries: seq<DirEntry>, record: BootRecord, name: seq<byte>)
    requires record.nRootEntries <= |entries|
    requires record.nRootEntries == 0 || NameOf(entries[0]) != name
    ensures SearchFile(entries, record, name) == SearchFileCorrected(entries, record, name).GetOr(EmptyEntry())
  {
    match FindByName(entries, record.nRootEntries, name)
    case Some(i) =>
      assert 0 < i;
    case None =>
  }

  /** A file whose entry is in slot 0 cannot be found: the lookup of its
      name answers with the empty entry, while the corrected lookup finds
      it. */
  lemma SearchFileLosesEntryZero()
    ensures var name: seq<byte> := [0x61];
      var e := DirEntry(70, 600, BINARY_TYPE, name + seq(22, _ => 0));
      var record := BootRecord(1, 512, 2048, 1, 1, seq(PADDING_SIZE, _ => 0));
      && NameOf(e) == name
      && e != EmptyEntry()
      && SearchFile([e], record, name) == EmptyEntry()
      && SearchFileCorrected([e], record, name) == Some(e)
  {
    var name: seq<byte> := [0x61];
    var e := DirEntry(70, 600, BINARY_TYPE, name + seq(22, _ => 0));
    assert e.fileName[1..] == seq(22, _ => 0);
    assert CString(e.fileName[1..]) == [];
    assert NameOf(e) == name;
  }
}
