// A transaction begun on a log that an earlier crash has torn, crashed again
// before it was published: whether recovery cleans up after it.
module TornIntents {
  import opened Bytes
  import opened Manifest
  import opened TxnGroups
  import opened CommitProtocol
  import opened CrashSafety
  import opened WalFile

  // The payloads of the replayed records, decoded.
  function Entries(decode: WalRecord -> Entry, rs: seq<WalRecord>): (es: seq<Entry>)
    ensures |es| == |rs|
  {
    seq(|rs|, i requires 0 <= i < |rs| => decode(rs[i]))
  }

  lemma EntriesStep(decode: WalRecord -> Entry, rs: seq<WalRecord>, r: WalRecord)
    ensures Entries(decode, rs + [r]) == Entries(decode, rs) + [decode(r)]
  {
  }

  // What opening the database makes of a log file: replay, then recovery.
  function OpenedOn(crc: seq<Byte> -> Checksum, decode: WalRecord -> Entry, file: seq<Byte>, logs: map<string, seq<Record>>, files: set<string>)
    : (d: Disk)
  {
    match Reopen(crc, file).0
    case Records(rs) => RecoverAll(Disk(Entries(decode, rs), [], logs, files))
    case _ => Disk([], [], logs, files)
  }

  // The log was cut at m and reopened; the next transaction staged its files and
  // made its intent durable, and a second crash came before its manifest record.
  // Recovery then removes its files if and only if the first cut left whole
  // pages.  Off the page grid the intent is not found, unless the bytes in its
  // middle happen to carry a valid checksum.
  lemma IntentAfterTear(crc: seq<Byte> -> Checksum, decode: WalRecord -> Entry, rs: seq<WalRecord>, m: nat, r: WalRecord, i: Intent,
                        logs: map<string, seq<Record>>, files: set<string>)
    requires (forall q :: q in rs ==> Fits(q)) && Fits(r) && crc([0, 0, 0, 0, 0]) != 0
    requires PAGE <= m <= |Header() + Frames(crc, rs)|
    requires decode(r) == Intend(i) && PlainLogs(logs) && PathSet(i) !! Named(logs)
    requires PathSet(i) != {} && PathSet(i) <= files
    requires var k := Complete(rs, m - PAGE);
      && NoPending(Entries(decode, rs[..k]))
      && (m < PAGE + SizeOf(rs[..k]) ==>
            ReadFrame(crc, (Header() + Frames(crc, rs))[..m] + Frame(crc, r), PAGE + SizeOf(rs[..k])).None?)
    ensures var left := Reopen(crc, (Header() + Frames(crc, rs))[..m]).1;
      var d := OpenedOn(crc, decode, left + Frame(crc, r), logs, files);
      && d.logs == logs
      && (PathSet(i) !! d.files <==> |left| % PAGE == 0)
      && d.files == if |left| % PAGE == 0 then files - PathSet(i) else files
  {
    hide Header, Frames, Frame, Complete, SizeOf, ReadFrame, Reopen, Parse, RecoverAll, PathSet, Named, PlainLogs, NoPending, IsCommitted;
    var k := Complete(rs, m - PAGE);
    var log := Header() + Frames(crc, rs);
    AppendAfterTear(crc, rs, m, r);
    TornLogReplays(crc, rs, m);
    var es := Entries(decode, rs[..k]);
    if PAGE + SizeOf(rs[..k]) <= m {
      EntriesStep(decode, rs[..k], r);
      var d := Disk(es + [Intend(i)], [], logs, files);
      ContentAll(Disk(es, [], logs, files));
      CrashedIntent(Disk(es, [], logs, files), i);
      UnnamedIsUncommitted(logs, i);
      LoneRecovery(d, i);
      UndoneRecovery(d, i);
    } else {
      UnseenAppend(crc, rs, m, r);
      NothingToRecover(Disk(es, [], logs, files));
    }
  }
}
