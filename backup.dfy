/**
 * The backup file `mac_backup.json` as a value: a mapping from interface name
 * to the address it had before the tool first changed it, with the time of
 * the backup as an opaque string.
 */
module Backup {

  /** One entry: `{"original_mac": ..., "timestamp": ...}`. */
  datatype Record = Record(originalMac: string, timestamp: string)

  /**
   * What `json.load` would find: no file, a file that cannot be opened or
   * parsed into a mapping of records, or the mapping itself.
   */
  datatype FileState = Missing | Unreadable | Stored(entries: map<string, Record>)

  /** What `restore_mac` finds for one interface. */
  datatype RestoreOutcome = RestoredTo(mac: string) | NoBackupFound | RestoreFailed

  /** The mapping `backup_mac` starts from; a missing file counts as empty. */
  function Entries(f: FileState): map<string, Record>
  {
    if f.Stored? then f.entries else map[]
  }

  /** `backup_mac` writes the file: it could be loaded (or was absent) and could be opened for writing. */
  predicate BackupWrites(f: FileState, writable: bool)
  {
    !f.Unreadable? && writable
  }

  /**
   * The file after `backup_mac(iface, mac)` at time `now`: the key `iface` is
   * set to the new record, every other key is kept, and a failed load or a
   * failed write leaves the file as it was.
   */
  function AfterBackup(f: FileState, iface: string, mac: string, now: string, writable: bool): (g: FileState)
    ensures BackupWrites(f, writable) ==> g.Stored? && g.entries.Keys == Entries(f).Keys + {iface}
    ensures BackupWrites(f, writable) ==> g.entries[iface] == Record(mac, now)
    ensures BackupWrites(f, writable) ==>
      forall other :: other in Entries(f) && other != iface ==> g.entries[other] == Entries(f)[other]
    ensures !BackupWrites(f, writable) ==> g == f
  {
    if BackupWrites(f, writable) then Stored(Entries(f)[iface := Record(mac, now)]) else f
  }

  /**
   * What `restore_mac(iface)` finds: the stored original address, "no backup
   * found" when the file holds no entry for `iface`, and a failure when the
   * file cannot be opened (a missing file included) or read.
   */
  function RestoreLookup(f: FileState, iface: string): (r: RestoreOutcome)
    ensures r.RestoredTo? <==> f.Stored? && iface in f.entries
    ensures r.RestoredTo? ==> r.mac == f.entries[iface].originalMac
    ensures r == RestoreFailed <==> !f.Stored?
  {
    match f
    case Stored(entries) =>
      if iface in entries then RestoredTo(entries[iface].originalMac) else NoBackupFound
    case _ => RestoreFailed
  }

  /** Backing up then restoring the same interface asks for exactly the backed-up address. */
  lemma BackupThenRestore(f: FileState, iface: string, mac: string, now: string)
    requires !f.Unreadable?
    ensures RestoreLookup(AfterBackup(f, iface, mac, now, true), iface) == RestoredTo(mac)
  {
  }

  /** A second backup of the same interface replaces the first: only the latest record is kept. */
  lemma BackupOverwrites(f: FileState, iface: string, mac1: string, now1: string, mac2: string, now2: string)
    requires !f.Unreadable?
    ensures AfterBackup(AfterBackup(f, iface, mac1, now1, true), iface, mac2, now2, true)
         == AfterBackup(f, iface, mac2, now2, true)
  {
    assert Entries(f)[iface := Record(mac1, now1)][iface := Record(mac2, now2)]
        == Entries(f)[iface := Record(mac2, now2)];
  }

  /** Backing up one interface does not change what restoring another one finds, once the file exists. */
  lemma BackupKeepsOtherRestores(f: FileState, iface: string, mac: string, now: string, writable: bool, other: string)
    requires f.Stored? && other != iface
    ensures RestoreLookup(AfterBackup(f, iface, mac, now, writable), other) == RestoreLookup(f, other)
  {
  }
}
