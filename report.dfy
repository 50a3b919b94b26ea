/**
  The reporting pass of `upload`: one line per result, and the raw digests
  appended to the ledger file for the items that succeeded. The ledger file
  is a flat concatenation of 16-byte MD5 digests; `Load` is a reference
  reader that turns whole records back into hash strings, so that the
  lemmas here can state what the file holds for a later run.
*/
module Report {
  import opened Basics
  import Hex
  import opened Items
  import opened Resolve

  /** What a report line says after the item: OK or the item's error. */
  datatype LineOutcome = Ok | Error(text: string)

  /** `#<index>: <item>: OK` or `#<index>: <item>: <error>`; the index counts from 1. */
  datatype ReportLine = ReportLine(index: nat, item: UploadItem, outcome: LineOutcome)

  function LineFor(i: nat, item: UploadItem, r: AddResult): ReportLine {
    ReportLine(i + 1, item, match r.error case Some(e) => Error(e) case None => Ok)
  }

  /** One line per result, in order, naming the item at the same position. */
  function ReportLines(items: seq<UploadItem>, results: seq<AddResult>): (lines: seq<ReportLine>)
    requires |results| <= |items|
    ensures |lines| == |results|
    ensures forall i | 0 <= i < |lines| ::
      && lines[i].index == i + 1
      && lines[i].item == items[i]
      && (lines[i].outcome.Ok? <==> results[i].error.None?)
      && (lines[i].outcome.Error? ==> results[i].error == Some(lines[i].outcome.text))
  {
    seq(|results|, i requires 0 <= i < |results| => LineFor(i, items[i], results[i]))
  }

  /** Whether the loop writes item `i`'s digest: it succeeded, has a hash, and the hash decodes. */
  predicate Committed(md5s: seq<string>, results: seq<AddResult>, i: nat)
    requires i < |results| && i < |md5s|
  {
    results[i].error.None? && md5s[i] != "" && Hex.Decode(md5s[i]).Some?
  }

  /** The bytes the loop writes for the first `n` results, when the ledger file is open. */
  function Persisted(md5s: seq<string>, results: seq<AddResult>, n: nat): seq<byte>
    requires n <= |results| && n <= |md5s|
  {
    if n == 0 then []
    else
      Persisted(md5s, results, n - 1)
      + if Committed(md5s, results, n - 1) then Hex.Decode(md5s[n - 1]).value else []
  }

  /** The hashes whose digests the first `n` results commit. */
  function CommittedHashes(md5s: seq<string>, results: seq<AddResult>, n: nat): set<string>
    requires n <= |results| && n <= |md5s|
  {
    set i | 0 <= i < n && Committed(md5s, results, i) :: md5s[i]
  }

  /** Every non-empty hash has the shape `%x` gives an MD5 digest. */
  predicate DigestHashes(md5s: seq<string>) {
    forall i | 0 <= i < |md5s| :: md5s[i] != "" ==> |md5s[i]| == 32 && Hex.IsLowerHex(md5s[i])
  }

  /** Reading a ledger file: every complete 16-byte record, as the hash string it stands for. */
  function Load(bytes: seq<byte>): set<string>
    decreases |bytes|
  {
    if |bytes| < 16 then {} else {Hex.Encode(bytes[..16])} + Load(bytes[16..])
  }

  lemma {:induction false} LoadAppend(a: seq<byte>, b: seq<byte>)
    requires |a| % 16 == 0
    ensures Load(a + b) == Load(a) + Load(b)
    decreases |a|
  {
    if a != [] {
      assert |a| >= 16;
      assert Load(a) == {Hex.Encode(a[..16])} + Load(a[16..]);
      assert (a + b)[..16] == a[..16];
      assert Load(a + b) == {Hex.Encode((a + b)[..16])} + Load((a + b)[16..]);
      assert (a + b)[16..] == a[16..] + b;
      LoadAppend(a[16..], b);
    } else {
      assert a + b == b;
    }
  }

  /** Each result adds its hash to the committed set exactly when it is committed. */
  lemma CommittedHashesStep(md5s: seq<string>, results: seq<AddResult>, n: nat)
    requires 0 < n <= |results| && n <= |md5s|
    ensures CommittedHashes(md5s, results, n)
      == CommittedHashes(md5s, results, n - 1)
         + if Committed(md5s, results, n - 1) then {md5s[n - 1]} else {}
  {
    var prev := CommittedHashes(md5s, results, n - 1);
    forall h | h in CommittedHashes(md5s, results, n)
      ensures h in prev || (Committed(md5s, results, n - 1) && h == md5s[n - 1])
    {
      var i :| 0 <= i < n && Committed(md5s, results, i) && md5s[i] == h;
      if i < n - 1 {
        assert h in prev;
      }
    }
  }

  /** One record reads back as the hash it encodes. */
  lemma LoadRecord(d: seq<byte>)
    requires |d| == 16
    ensures Load(d) == {Hex.Encode(d)}
  {
    assert d[..16] == d && d[16..] == [];
    assert Load([]) == {};
  }

  /** A committed hash of digest shape contributes one record, which reads back as that hash. */
  lemma CommittedRecord(md5s: seq<string>, results: seq<AddResult>, i: nat)
    requires i < |results| && i < |md5s|
    requires Committed(md5s, results, i)
    requires |md5s[i]| == 32 && Hex.IsLowerHex(md5s[i])
    ensures |Hex.Decode(md5s[i]).value| == 16
    ensures Load(Hex.Decode(md5s[i]).value) == {md5s[i]}
  {
    Hex.EncodeDecode(md5s[i]);
    LoadRecord(Hex.Decode(md5s[i]).value);
  }

  /** With well-formed hashes, the appended bytes are whole 16-byte records. */
  lemma {:induction false} PersistedWholeRecords(md5s: seq<string>, results: seq<AddResult>, n: nat)
    requires n <= |results| && n <= |md5s|
    requires DigestHashes(md5s)
    ensures |Persisted(md5s, results, n)| % 16 == 0
  {
    if n > 0 {
      PersistedWholeRecords(md5s, results, n - 1);
      if Committed(md5s, results, n - 1) {
        CommittedRecord(md5s, results, n - 1);
      }
    }
  }

  /** Each result adds to what the appended bytes read back as exactly its committed hash, if any. */
  lemma PersistedStep(md5s: seq<string>, results: seq<AddResult>, n: nat)
    requires 0 < n <= |results| && n <= |md5s|
    requires DigestHashes(md5s)
    ensures Load(Persisted(md5s, results, n))
      == Load(Persisted(md5s, results, n - 1))
         + if Committed(md5s, results, n - 1) then {md5s[n - 1]} else {}
  {
    var prev := Persisted(md5s, results, n - 1);
    if Committed(md5s, results, n - 1) {
      PersistedWholeRecords(md5s, results, n - 1);
      var d := Hex.Decode(md5s[n - 1]).value;
      assert Persisted(md5s, results, n) == prev + d;
      CommittedRecord(md5s, results, n - 1);
      LoadAppend(prev, d);
    } else {
      assert Persisted(md5s, results, n) == prev;
    }
  }

  /** Reading the appended bytes back gives exactly the hashes of the committed items. */
  lemma {:induction false} PersistedLoadsCommitted(md5s: seq<string>, results: seq<AddResult>, n: nat)
    requires n <= |results| && n <= |md5s|
    requires DigestHashes(md5s)
    ensures Load(Persisted(md5s, results, n)) == CommittedHashes(md5s, results, n)
  {
    if n == 0 {
      assert Load([]) == {};
    } else {
      PersistedLoadsCommitted(md5s, results, n - 1);
      PersistedStep(md5s, results, n);
      CommittedHashesStep(md5s, results, n);
    }
  }

  /**
    Appending the persisted bytes to a ledger file of whole records makes
    every committed hash readable from it.
  */
  lemma CommittedHashLoads(md5s: seq<string>, results: seq<AddResult>, before: seq<byte>, i: nat)
    requires |results| <= |md5s| && i < |results|
    requires DigestHashes(md5s) && Committed(md5s, results, i)
    requires |before| % 16 == 0
    ensures md5s[i] in Load(before + Persisted(md5s, results, |results|))
  {
    PersistedLoadsCommitted(md5s, results, |results|);
    LoadAppend(before, Persisted(md5s, results, |results|));
  }

  /** Aligned hashes have the shape `%x` gives a digest: a file item's hash, or empty. */
  lemma AlignedHashesAreDigests(s: Scan, env: Env)
    requires Aligned(s, env)
    ensures DigestHashes(s.md5s)
  {
    forall i | 0 <= i < |s.md5s| && s.md5s[i] != ""
      ensures |s.md5s[i]| == 32 && Hex.IsLowerHex(s.md5s[i])
    {
      assert s.items[i].FileItem?;
    }
  }

  /**
    A file uploaded successfully is skipped by the next run: once the
    ledger file (whole records so far) has the appended digests, reading it
    back yields the file's hash, and `NeedUpload` on the same content
    answers "already known". A successful resolution gives each file item
    the hash of its content (ResolutionInvariant) and only digest-shaped
    hashes (AlignedHashesAreDigests).
  */
  lemma UploadedFileSkippedNextRun(md5s: seq<string>, results: seq<AddResult>, before: seq<byte>, i: nat,
                                   md5: seq<byte> -> Digest, content: seq<byte>)
    requires DigestHashes(md5s)
    requires |results| <= |md5s| && i < |results|
    requires md5s[i] == HashOf(md5, content) && results[i].error.None?
    requires |before| % 16 == 0
    ensures ProbeFile(Load(before + Persisted(md5s, results, |results|)), Read(content), md5)
      == Probe(false, md5s[i])
  {
    assert Committed(md5s, results, i);
    CommittedHashLoads(md5s, results, before, i);
  }
}
