/** Keeping clangd's documents in step with the editor's (src/completers/cpp/clangd_completer.cpp:296-378). */
module DocumentSync {
  import opened Bytes

  // A file name, or a URI.
  datatype Name = Name(chars: string)

  datatype FileData = FileData(filetypes: seq<string>, contents: ByteString)

  datatype File = File(version: nat, hash: nat)

  // A notification: the file it is about, and the URI it sends for that file.
  datatype Notification =
    | DidOpen(filename: Name, uri: Name, languageId: string, version: nat, text: ByteString)
    | DidChange(filename: Name, uri: Name, version: nat, text: ByteString)
    | DidClose(filename: Name, uri: Name)

  function Uri(filename: Name): Name {
    Name("file://" + filename.chars)
  }

  // ----- The server, as the protocol has it -----

  datatype Document = Document(version: nat, text: ByteString)

  type Documents = map<Name, Document>

  // Documents are known to the server by URI; the client knows them by file name.
  function Key(n: Notification, byUri: bool): Name {
    if byUri then n.uri else n.filename
  }

  // Only a closed document may be opened, only an open one changed, by one version, or closed.
  function Apply(docs: Documents, n: Notification, byUri: bool): Option<Documents> {
    var key := Key(n, byUri);
    match n
    case DidOpen(_, _, _, version, text) =>
      if key in docs || version != 1 then None else Some(docs[key := Document(version, text)])
    case DidChange(_, _, version, text) =>
      if key !in docs || version != docs[key].version + 1 then None else Some(docs[key := Document(version, text)])
    case DidClose(_, _) =>
      if key !in docs then None else Some(docs - {key})
  }

  function Replay(docs: Documents, sent: seq<Notification>, byUri: bool): Option<Documents>
    decreases |sent|
  {
    if sent == [] then Some(docs)
    else match Apply(docs, sent[0], byUri)
      case None => None
      case Some(next) => Replay(next, sent[1..], byUri)
  }

  lemma {:induction false} ReplayConcat(docs: Documents, a: seq<Notification>, b: seq<Notification>, byUri: bool)
    ensures Replay(docs, a + b, byUri) ==
            if Replay(docs, a, byUri).Some? then Replay(Replay(docs, a, byUri).value, b, byUri) else None
    decreases |a|
  {
    if a == [] {
      assert a + b == b;
    } else {
      assert (a + b)[0] == a[0] && (a + b)[1..] == a[1..] + b;
      if Apply(docs, a[0], byUri).Some? {
        ReplayConcat(Apply(docs, a[0], byUri).value, a[1..], b, byUri);
      }
    }
  }

  lemma ReplaySnoc(docs: Documents, sent: seq<Notification>, n: Notification, byUri: bool)
    ensures Replay(docs, sent + [n], byUri) ==
            if Replay(docs, sent, byUri).Some? then Apply(Replay(docs, sent, byUri).value, n, byUri) else None
  {
    ReplayConcat(docs, sent, [n], byUri);
    assert [n][1..] == [];
  }

  // The client's records agree with the server's documents.
  ghost predicate Consistent(hash: ByteString -> nat, records: map<Name, File>, docs: Documents) {
    && docs.Keys == records.Keys
    && forall f :: f in docs ==> docs[f].version == records[f].version && hash(docs[f].text) == records[f].hash
  }

  // ----- What one sync does -----

  // The record of a requested file: opened at version 1, or one version on if its hash changed.
  function SyncedFile(hash: ByteString -> nat, records: map<Name, File>, f: Name, data: FileData): File {
    var h := hash(data.contents);
    if f !in records then File(1, h)
    else if records[f].hash != h then File(records[f].version + 1, h)
    else records[f]
  }

  function Synced(hash: ByteString -> nat, records: map<Name, File>, fileData: map<Name, FileData>)
    : (r: map<Name, File>)
    ensures r.Keys == fileData.Keys
  {
    map f | f in fileData :: SyncedFile(hash, records, f, fileData[f])
  }

  // A notification about a requested file: its URI is "file://" and its name, its text the requested one; when it is
  // opened, its language is its first file type.
  ghost predicate IsNotice(n: Notification, f: Name, data: FileData) {
    && n.filename == f && n.uri.chars == "file://" + f.chars
    && match n
       case DidOpen(_, _, languageId, version, text) =>
         data.filetypes != [] && languageId == data.filetypes[0] && version == 1 && text == data.contents
       case DidChange(_, _, _, text) => text == data.contents
       case DidClose(_, _) => false
  }

  // What there is to say about a requested file, if anything.
  function Update(hash: ByteString -> nat, records: map<Name, File>, f: Name, data: FileData): Option<Notification>
    requires f !in records ==> data.filetypes != []
  {
    if f !in records then Some(DidOpen(f, Uri(f), data.filetypes[0], 1, data.contents))
    else if records[f].hash != hash(data.contents) then
      Some(DidChange(f, Uri(f), records[f].version + 1, data.contents))
    else None
  }

  // A file to be opened needs a file type.
  ghost predicate HaveFiletypes(records: map<Name, File>, fileData: map<Name, FileData>) {
    forall f :: f in fileData && f !in records ==> fileData[f].filetypes != []
  }

  // An order in which a map with these keys may be walked.
  ghost predicate IsOrder(order: seq<Name>, files: set<Name>) {
    && (forall i, j :: 0 <= i < j < |order| ==> order[i] != order[j])
    && (forall f :: f in order <==> f in files)
  }

  // The files of an order are requested.
  ghost predicate AreRequested(order: seq<Name>, fileData: map<Name, FileData>) {
    forall f :: f in order ==> f in fileData
  }

  function OptionalOne<T>(o: Option<T>): seq<T> {
    if o.Some? then [o.value] else []
  }

  // The first loop, over the requested files in some order: the records it leaves, and what it sends.
  function UpdatedRecords(hash: ByteString -> nat, records: map<Name, File>, fileData: map<Name, FileData>,
                          order: seq<Name>): (r: map<Name, File>)
    requires AreRequested(order, fileData)
    ensures records.Keys <= r.Keys
  {
    if order == [] then records
    else
      var last, before := order[|order| - 1], UpdatedRecords(hash, records, fileData, order[..|order| - 1]);
      before[last := SyncedFile(hash, before, last, fileData[last])]
  }

  function UpdatesFor(hash: ByteString -> nat, records: map<Name, File>, fileData: map<Name, FileData>,
                      order: seq<Name>): seq<Notification>
    requires HaveFiletypes(records, fileData) && AreRequested(order, fileData)
  {
    if order == [] then []
    else
      var last, before := order[|order| - 1], UpdatedRecords(hash, records, fileData, order[..|order| - 1]);
      UpdatesFor(hash, records, fileData, order[..|order| - 1])
      + OptionalOne(Update(hash, before, last, fileData[last]))
  }

  // The second loop, over the records in some order: files that are not requested are dropped and closed.
  // It is the bare file name that goes out as the URI.
  function KeptRecords(records: map<Name, File>, requested: set<Name>, order: seq<Name>): map<Name, File> {
    if order == [] then records
    else
      var last, before := order[|order| - 1], KeptRecords(records, requested, order[..|order| - 1]);
      if last in requested then before else before - {last}
  }

  function ClosesFor(requested: set<Name>, order: seq<Name>): seq<Notification> {
    if order == [] then []
    else
      var last := order[|order| - 1];
      ClosesFor(requested, order[..|order| - 1]) + if last in requested then [] else [DidClose(last, last)]
  }

  // What a sync may say: of the requested files as above, and that others are closed, under their bare names.
  ghost predicate AreNotices(sent: seq<Notification>, fileData: map<Name, FileData>) {
    forall n :: n in sent ==>
      if n.DidClose? then n.filename !in fileData && n.uri == n.filename
      else n.filename in fileData && IsNotice(n, n.filename, fileData[n.filename])
  }

  lemma {:induction false} UpdatesAreNotices(hash: ByteString -> nat, records: map<Name, File>,
                                             fileData: map<Name, FileData>, order: seq<Name>)
    requires HaveFiletypes(records, fileData) && AreRequested(order, fileData)
    ensures AreNotices(UpdatesFor(hash, records, fileData, order), fileData)
  {
    if order == [] {
    } else {
      UpdatesAreNotices(hash, records, fileData, order[..|order| - 1]);
    }
  }

  lemma {:induction false} ClosesAreNotices(fileData: map<Name, FileData>, order: seq<Name>)
    ensures AreNotices(ClosesFor(fileData.Keys, order), fileData)
  {
    if order == [] {
    } else {
      ClosesAreNotices(fileData, order[..|order| - 1]);
    }
  }

  // Everything a sync sends, given the orders in which it walks the two maps.
  function SyncFor(hash: ByteString -> nat, records: map<Name, File>, fileData: map<Name, FileData>,
                   order: seq<Name>, recordOrder: seq<Name>): seq<Notification>
    requires HaveFiletypes(records, fileData) && AreRequested(order, fileData)
  {
    UpdatesFor(hash, records, fileData, order) + ClosesFor(fileData.Keys, recordOrder)
  }

  // ----- Runs of syncs -----

  // A request to sync, and the orders in which the sync walks the request's map and then the record map.
  datatype Sync = Sync(fileData: map<Name, FileData>, order: seq<Name>, recordOrder: seq<Name>)

  ghost predicate IsSync(records: map<Name, File>, s: Sync) {
    && HaveFiletypes(records, s.fileData)
    && IsOrder(s.order, s.fileData.Keys) && IsOrder(s.recordOrder, records.Keys + s.fileData.Keys)
  }

  // The records after a run that starts with none.
  function RecordsAfter(hash: ByteString -> nat, syncs: seq<Sync>): map<Name, File> {
    if syncs == [] then map[]
    else Synced(hash, RecordsAfter(hash, syncs[..|syncs| - 1]), syncs[|syncs| - 1].fileData)
  }

  ghost predicate IsRun(hash: ByteString -> nat, syncs: seq<Sync>) {
    syncs == [] || (IsRun(hash, syncs[..|syncs| - 1])
                    && IsSync(RecordsAfter(hash, syncs[..|syncs| - 1]), syncs[|syncs| - 1]))
  }

  // All that a run sends.
  function SentBy(hash: ByteString -> nat, syncs: seq<Sync>): seq<Notification>
    requires IsRun(hash, syncs)
  {
    if syncs == [] then []
    else
      var front, last := syncs[..|syncs| - 1], syncs[|syncs| - 1];
      SentBy(hash, front) + SyncFor(hash, RecordsAfter(hash, front), last.fileData, last.order, last.recordOrder)
  }

  lemma RunSnoc(hash: ByteString -> nat, syncs: seq<Sync>, s: Sync)
    requires IsRun(hash, syncs) && IsSync(RecordsAfter(hash, syncs), s)
    ensures IsRun(hash, syncs + [s])
    ensures RecordsAfter(hash, syncs + [s]) == Synced(hash, RecordsAfter(hash, syncs), s.fileData)
    ensures SentBy(hash, syncs + [s]) ==
            SentBy(hash, syncs) + SyncFor(hash, RecordsAfter(hash, syncs), s.fileData, s.order, s.recordOrder)
  {
    var all := syncs + [s];
    assert all[..|all| - 1] == syncs && all[|all| - 1] == s;
  }

  /** Every notification of a sync carries the text, language and URI of the request, or closes by the bare name. */
  lemma SyncSendsNotices(hash: ByteString -> nat, records: map<Name, File>, s: Sync)
    requires IsSync(records, s)
    ensures AreNotices(SyncFor(hash, records, s.fileData, s.order, s.recordOrder), s.fileData)
  {
    UpdatesAreNotices(hash, records, s.fileData, s.order);
    ClosesAreNotices(s.fileData, s.recordOrder);
    var updates, closes := UpdatesFor(hash, records, s.fileData, s.order), ClosesFor(s.fileData.Keys, s.recordOrder);
    assert forall n :: n in updates + closes <==> n in updates || n in closes;
  }

  class ClangdDocuments {
    const hash: ByteString -> nat // XXH64
    var openedFiles: map<Name, File>
    var sent: seq<Notification>   // all that was written to the server so far

    ghost var syncs: seq<Sync>    // the run that led here

    ghost predicate Valid()
      reads this
    {
      IsRun(hash, syncs) && openedFiles == RecordsAfter(hash, syncs) && sent == SentBy(hash, syncs)
    }

    constructor (hash: ByteString -> nat)
      ensures Valid() && openedFiles == map[] && sent == []
    {
      this.hash, openedFiles, sent, syncs := hash, map[], [], [];
    }

    /** sync_files. The orders are those in which the request's map and then the record map are walked. Replaying all
        that was ever sent breaks no rule of the protocol, and ends in documents that agree with the records. */
    method SyncFiles(fileData: map<Name, FileData>, order: seq<Name>, recordOrder: seq<Name>)
      requires Valid() && HaveFiletypes(openedFiles, fileData)
      requires IsOrder(order, fileData.Keys) && IsOrder(recordOrder, openedFiles.Keys + fileData.Keys)
      modifies this
      ensures Valid() && syncs == old(syncs) + [Sync(fileData, order, recordOrder)]
      ensures openedFiles == Synced(hash, old(openedFiles), fileData)
      ensures sent == old(sent) + SyncFor(hash, old(openedFiles), fileData, order, recordOrder)
      ensures AreNotices(sent[|old(sent)|..], fileData)
      ensures Replay(map[], sent, false).Some?
      ensures Consistent(hash, openedFiles, Replay(map[], sent, false).value)
    {
      ghost var records, before := openedFiles, sent;
      UpdateRequested(fileData, order);
      CloseOthers(fileData, recordOrder);
      SyncRecords(hash, records, fileData, order, recordOrder);
      Associates(before, UpdatesFor(hash, records, fileData, order), ClosesFor(fileData.Keys, recordOrder));
      SyncSendsNotices(hash, records, Sync(fileData, order, recordOrder));
      RunSnoc(hash, syncs, Sync(fileData, order, recordOrder));
      syncs := syncs + [Sync(fileData, order, recordOrder)];
      RunReplays(hash, syncs);
    }

    // The first loop.
    method UpdateRequested(fileData: map<Name, FileData>, order: seq<Name>)
      requires HaveFiletypes(openedFiles, fileData) && AreRequested(order, fileData)
      modifies this`openedFiles, this`sent
      ensures openedFiles == UpdatedRecords(hash, old(openedFiles), fileData, order)
      ensures sent == old(sent) + UpdatesFor(hash, old(openedFiles), fileData, order)
    {
      ghost var records, before := openedFiles, sent;
      for i := 0 to |order|
        invariant AreRequested(order[..i], fileData)
        invariant openedFiles == UpdatedRecords(hash, records, fileData, order[..i])
        invariant sent == before + UpdatesFor(hash, records, fileData, order[..i])
      {
        UpdatesGrow(hash, records, fileData, before, order, i);
        UpdateOne(order[i], fileData[order[i]]);
      }
      assert order[..|order|] == order;
    }

    // One turn of the first loop.
    method UpdateOne(filename: Name, data: FileData)
      requires filename !in openedFiles ==> data.filetypes != []
      modifies this`openedFiles, this`sent
      ensures openedFiles == old(openedFiles)[filename := SyncedFile(hash, old(openedFiles), filename, data)]
      ensures sent == old(sent) + OptionalOne(Update(hash, old(openedFiles), filename, data))
      ensures forall n :: n in sent[|old(sent)|..] ==> IsNotice(n, filename, data)
    {
      var h := hash(data.contents);
      if filename !in openedFiles {
        openedFiles := openedFiles[filename := File(1, h)];
        sent := sent + [DidOpen(filename, Uri(filename), data.filetypes[0], 1, data.contents)];
      } else if openedFiles[filename].hash != h {
        var version := openedFiles[filename].version + 1;
        openedFiles := openedFiles[filename := File(version, h)];
        sent := sent + [DidChange(filename, Uri(filename), version, data.contents)];
      } else {
        assert openedFiles == openedFiles[filename := openedFiles[filename]];
      }
    }

    // The second loop.
    method CloseOthers(fileData: map<Name, FileData>, order: seq<Name>)
      modifies this`openedFiles, this`sent
      ensures openedFiles == KeptRecords(old(openedFiles), fileData.Keys, order)
      ensures sent == old(sent) + ClosesFor(fileData.Keys, order)
    {
      ghost var records, before := openedFiles, sent;
      for i := 0 to |order|
        invariant openedFiles == KeptRecords(records, fileData.Keys, order[..i])
        invariant sent == before + ClosesFor(fileData.Keys, order[..i])
      {
        assert order[..i + 1][..i] == order[..i];
        if order[i] !in fileData {
          sent := sent + [DidClose(order[i], order[i])];
          openedFiles := openedFiles - {order[i]};
        }
      }
      assert order[..|order|] == order;
    }
  }

  lemma UpdatesGrow(hash: ByteString -> nat, records: map<Name, File>, fileData: map<Name, FileData>,
                    before: seq<Notification>, order: seq<Name>, i: nat)
    requires HaveFiletypes(records, fileData) && AreRequested(order, fileData) && i < |order|
    ensures AreRequested(order[..i], fileData) && AreRequested(order[..i + 1], fileData)
    ensures var f, now := order[i], UpdatedRecords(hash, records, fileData, order[..i]);
            && UpdatedRecords(hash, records, fileData, order[..i + 1])
               == now[f := SyncedFile(hash, now, f, fileData[f])]
            && before + UpdatesFor(hash, records, fileData, order[..i + 1])
               == before + UpdatesFor(hash, records, fileData, order[..i])
                  + OptionalOne(Update(hash, now, f, fileData[f]))
  {
    assert order[..i + 1][..i] == order[..i];
    assert forall f :: f in order[..i + 1] ==> f in order;
  }

  // ----- The records a sync leaves -----

  predicate Unrepeated(order: seq<Name>) {
    forall i, j :: 0 <= i < j < |order| ==> order[i] != order[j]
  }

  lemma {:induction false} UpdatedRecordsAt(hash: ByteString -> nat, records: map<Name, File>,
                                            fileData: map<Name, FileData>, order: seq<Name>, f: Name)
    requires AreRequested(order, fileData) && Unrepeated(order)
    ensures var r := UpdatedRecords(hash, records, fileData, order);
            if f in order then f in r && r[f] == SyncedFile(hash, records, f, fileData[f])
            else (f in r <==> f in records) && (f in r ==> r[f] == records[f])
  {
    if order == [] {
    } else {
      var front, last := order[..|order| - 1], order[|order| - 1];
      UpdatedRecordsAt(hash, records, fileData, front, f);
      assert f in order <==> f in front || f == last;
      assert last !in front;
    }
  }

  lemma {:induction false} KeptRecordsAt(records: map<Name, File>, requested: set<Name>, order: seq<Name>, f: Name)
    ensures var r := KeptRecords(records, requested, order);
            (f in r <==> f in records && (f in requested || f !in order)) && (f in r ==> r[f] == records[f])
  {
    if order == [] {
    } else {
      var front, last := order[..|order| - 1], order[|order| - 1];
      KeptRecordsAt(records, requested, front, f);
      assert f in order <==> f in front || f == last;
    }
  }

  ghost predicate SameAt(a: map<Name, File>, b: map<Name, File>, f: Name) {
    (f in a <==> f in b) && (f in a ==> a[f] == b[f])
  }

  lemma SameEverywhere(a: map<Name, File>, b: map<Name, File>)
    requires forall f :: SameAt(a, b, f)
    ensures a == b
  {
    forall f ensures f in a <==> f in b {
      assert SameAt(a, b, f);
    }
    forall f | f in a ensures a[f] == b[f] {
      assert SameAt(a, b, f);
    }
  }

  lemma SyncRecordAt(hash: ByteString -> nat, records: map<Name, File>, fileData: map<Name, FileData>,
                     order: seq<Name>, recordOrder: seq<Name>, f: Name)
    requires IsOrder(order, fileData.Keys) && IsOrder(recordOrder, records.Keys + fileData.Keys)
    ensures SameAt(KeptRecords(UpdatedRecords(hash, records, fileData, order), fileData.Keys, recordOrder),
                   Synced(hash, records, fileData), f)
  {
    UpdatedRecordsAt(hash, records, fileData, order, f);
    KeptRecordsAt(UpdatedRecords(hash, records, fileData, order), fileData.Keys, recordOrder, f);
    assert f in records ==> f in recordOrder;
  }

  /** After a sync the records are those of the requested files, whatever the orders. */
  lemma SyncRecords(hash: ByteString -> nat, records: map<Name, File>, fileData: map<Name, FileData>,
                    order: seq<Name>, recordOrder: seq<Name>)
    requires IsOrder(order, fileData.Keys) && IsOrder(recordOrder, records.Keys + fileData.Keys)
    ensures KeptRecords(UpdatedRecords(hash, records, fileData, order), fileData.Keys, recordOrder)
            == Synced(hash, records, fileData)
  {
    var after := KeptRecords(UpdatedRecords(hash, records, fileData, order), fileData.Keys, recordOrder);
    forall f ensures SameAt(after, Synced(hash, records, fileData), f) {
      SyncRecordAt(hash, records, fileData, order, recordOrder, f);
    }
    SameEverywhere(after, Synced(hash, records, fileData));
  }

  // ----- The server keeps up -----

  lemma UpdateReplays(hash: ByteString -> nat, records: map<Name, File>, f: Name, data: FileData, docs: Documents)
    requires f !in records ==> data.filetypes != []
    requires Consistent(hash, records, docs)
    ensures var update, after := Update(hash, records, f, data), records[f := SyncedFile(hash, records, f, data)];
            if update.None? then Consistent(hash, after, docs)
            else Apply(docs, update.value, false).Some?
                 && Consistent(hash, after, Apply(docs, update.value, false).value)
  {
  }

  lemma ReplayOptional(docs: Documents, sent: seq<Notification>, n: Option<Notification>)
    requires Replay(docs, sent, false).Some?
    ensures Replay(docs, sent + OptionalOne(n), false) ==
            var now := Replay(docs, sent, false).value; if n.None? then Some(now) else Apply(now, n.value, false)
  {
    if n.Some? {
      ReplaySnoc(docs, sent, n.value, false);
    } else {
      assert sent + [] == sent;
    }
  }

  lemma {:induction false} UpdatesReplay(hash: ByteString -> nat, records: map<Name, File>,
                                         fileData: map<Name, FileData>, docs: Documents, order: seq<Name>)
    requires HaveFiletypes(records, fileData) && AreRequested(order, fileData) && Consistent(hash, records, docs)
    ensures var r := Replay(docs, UpdatesFor(hash, records, fileData, order), false);
            r.Some? && Consistent(hash, UpdatedRecords(hash, records, fileData, order), r.value)
  {
    if order == [] {
    } else {
      var front, last := order[..|order| - 1], order[|order| - 1];
      UpdatesReplay(hash, records, fileData, docs, front);
      var sent, now := UpdatesFor(hash, records, fileData, front), UpdatedRecords(hash, records, fileData, front);
      UpdateReplays(hash, now, last, fileData[last], Replay(docs, sent, false).value);
      ReplayOptional(docs, sent, Update(hash, now, last, fileData[last]));
    }
  }

  lemma {:induction false} ClosesReplay(hash: ByteString -> nat, records: map<Name, File>, requested: set<Name>,
                                        docs: Documents, order: seq<Name>)
    requires Consistent(hash, records, docs) && Unrepeated(order)
    requires forall f :: f in order ==> f in records
    ensures var r := Replay(docs, ClosesFor(requested, order), false);
            r.Some? && Consistent(hash, KeptRecords(records, requested, order), r.value)
  {
    if order == [] {
    } else {
      var front, last := order[..|order| - 1], order[|order| - 1];
      ClosesReplay(hash, records, requested, docs, front);
      assert last in order && last !in front;
      KeptRecordsAt(records, requested, front, last);
      var sent := ClosesFor(requested, front);
      if last in requested {
        assert sent + [] == sent;
      } else {
        ReplaySnoc(docs, sent, DidClose(last, last), false);
      }
    }
  }

  /** Replaying a sync, in whatever order it walked its maps, breaks no rule of the protocol, and ends in
      documents that agree with the new records. */
  lemma SyncReplays(hash: ByteString -> nat, records: map<Name, File>, fileData: map<Name, FileData>,
                    docs: Documents, order: seq<Name>, recordOrder: seq<Name>)
    requires HaveFiletypes(records, fileData) && Consistent(hash, records, docs)
    requires IsOrder(order, fileData.Keys) && IsOrder(recordOrder, records.Keys + fileData.Keys)
    ensures var r := Replay(docs, SyncFor(hash, records, fileData, order, recordOrder), false);
            r.Some? && Consistent(hash, Synced(hash, records, fileData), r.value)
  {
    UpdatesReplay(hash, records, fileData, docs, order);
    SyncRecords(hash, records, fileData, order, recordOrder);
    var updates, middle := UpdatesFor(hash, records, fileData, order), UpdatedRecords(hash, records, fileData, order);
    forall f | f in recordOrder ensures f in middle {
      UpdatedRecordsAt(hash, records, fileData, order, f);
    }
    ClosesReplay(hash, middle, fileData.Keys, Replay(docs, updates, false).value, recordOrder);
    ReplayConcat(docs, updates, ClosesFor(fileData.Keys, recordOrder), false);
  }

  lemma Associates<T>(a: seq<T>, b: seq<T>, c: seq<T>)
    ensures a + b + c == a + (b + c)
  {
  }

  /** Repeating a sync changes no record and sends nothing, in whatever order it walks the maps. */
  lemma {:induction false} SyncIsIdempotent(hash: ByteString -> nat, records: map<Name, File>,
                                            fileData: map<Name, FileData>, order: seq<Name>)
    requires AreRequested(order, fileData)
    ensures var synced := Synced(hash, records, fileData);
            && Synced(hash, synced, fileData) == synced
            && UpdatedRecords(hash, synced, fileData, order) == synced
            && UpdatesFor(hash, synced, fileData, order) == []
            && ClosesFor(fileData.Keys, order) == []
  {
    if order == [] {
    } else {
      SyncIsIdempotent(hash, records, fileData, order[..|order| - 1]);
      assert order[|order| - 1] in order;
    }
  }

  // The text the server has for a requested file: its old one, if that has the hash of the requested one.
  function SyncedText(hash: ByteString -> nat, docs: Documents, f: Name, data: FileData): ByteString {
    if f in docs && hash(docs[f].text) == hash(data.contents) then docs[f].text else data.contents
  }

  // What one requested file changes of the server's documents.
  lemma UpdateTexts(hash: ByteString -> nat, records: map<Name, File>, f: Name, data: FileData, docs: Documents)
    requires f !in records ==> data.filetypes != []
    requires Consistent(hash, records, docs)
    ensures var update := Update(hash, records, f, data);
            var after := if update.None? then Some(docs) else Apply(docs, update.value, false);
            && after.Some? && after.value.Keys == docs.Keys + {f}
            && after.value[f].text == SyncedText(hash, docs, f, data)
            && forall g :: g in docs && g != f ==> after.value[g] == docs[g]
  {
  }

  // What the walk over `order` makes of one file: the text the server has for it, or no change.
  ghost predicate IsUpdatedAt(hash: ByteString -> nat, fileData: map<Name, FileData>, docs: Documents,
                              after: Documents, order: seq<Name>, f: Name)
    requires AreRequested(order, fileData)
  {
    if f in order then f in after && after[f].text == SyncedText(hash, docs, f, fileData[f])
    else (f in after <==> f in docs) && (f in docs ==> after[f] == docs[f])
  }

  lemma {:induction false} UpdatedTextAt(hash: ByteString -> nat, records: map<Name, File>,
                                         fileData: map<Name, FileData>, docs: Documents, order: seq<Name>, f: Name)
    requires HaveFiletypes(records, fileData) && AreRequested(order, fileData) && Unrepeated(order)
    requires Consistent(hash, records, docs)
    ensures var r := Replay(docs, UpdatesFor(hash, records, fileData, order), false);
            r.Some? && IsUpdatedAt(hash, fileData, docs, r.value, order, f)
  {
    if order == [] {
    } else {
      var front, last := order[..|order| - 1], order[|order| - 1];
      UpdatedTextAt(hash, records, fileData, docs, front, f);
      UpdatesReplay(hash, records, fileData, docs, front);
      var sent, now := UpdatesFor(hash, records, fileData, front), UpdatedRecords(hash, records, fileData, front);
      UpdateTexts(hash, now, last, fileData[last], Replay(docs, sent, false).value);
      ReplayOptional(docs, sent, Update(hash, now, last, fileData[last]));
      LastUnrepeated(order, f);
    }
  }

  lemma LastUnrepeated(order: seq<Name>, f: Name)
    requires order != [] && Unrepeated(order)
    ensures var front, last := order[..|order| - 1], order[|order| - 1];
            last !in front && (f in order <==> f in front || f == last)
  {
    assert order == order[..|order| - 1] + [order[|order| - 1]];
  }

  lemma {:induction false} ClosesKeep(docs: Documents, requested: set<Name>, order: seq<Name>)
    requires Replay(docs, ClosesFor(requested, order), false).Some?
    ensures var r := Replay(docs, ClosesFor(requested, order), false).value;
            forall f :: f in requested ==> (f in r <==> f in docs) && (f in r ==> r[f] == docs[f])
  {
    if order == [] {
    } else {
      var front, last := order[..|order| - 1], order[|order| - 1];
      if last in requested {
        assert ClosesFor(requested, order) == ClosesFor(requested, front);
      } else {
        ReplaySnoc(docs, ClosesFor(requested, front), DidClose(last, last), false);
      }
      ClosesKeep(docs, requested, front);
    }
  }

  /** After a sync the server has exactly the requested files, each with the requested text unless it had another
      text of that hash. So it has the requested texts exactly when no two texts collide under the hash. */
  lemma ServerTexts(hash: ByteString -> nat, records: map<Name, File>, fileData: map<Name, FileData>,
                    docs: Documents, order: seq<Name>, recordOrder: seq<Name>)
    requires HaveFiletypes(records, fileData) && Consistent(hash, records, docs)
    requires IsOrder(order, fileData.Keys) && IsOrder(recordOrder, records.Keys + fileData.Keys)
    ensures var r := Replay(docs, SyncFor(hash, records, fileData, order, recordOrder), false);
            && r.Some? && r.value.Keys == fileData.Keys
            && (forall f :: f in fileData ==> r.value[f].text == SyncedText(hash, docs, f, fileData[f]))
            && ((forall f :: f in fileData ==> r.value[f].text == fileData[f].contents) <==>
                forall f :: f in fileData && f in docs && hash(docs[f].text) == hash(fileData[f].contents) ==>
                  docs[f].text == fileData[f].contents)
  {
    SyncReplays(hash, records, fileData, docs, order, recordOrder);
    UpdatesReplay(hash, records, fileData, docs, order);
    var updates, closes := UpdatesFor(hash, records, fileData, order), ClosesFor(fileData.Keys, recordOrder);
    ReplayConcat(docs, updates, closes, false);
    ClosesKeep(Replay(docs, updates, false).value, fileData.Keys, recordOrder);
    var after := Replay(docs, updates + closes, false).value;
    forall f | f in fileData ensures after[f].text == SyncedText(hash, docs, f, fileData[f]) {
      UpdatedTextAt(hash, records, fileData, docs, order, f);
    }
  }

  // ----- What every run does -----

  /** Every run replays without breaking the protocol, into documents that agree with the records. */
  lemma {:induction false} RunReplays(hash: ByteString -> nat, syncs: seq<Sync>)
    requires IsRun(hash, syncs)
    ensures var r := Replay(map[], SentBy(hash, syncs), false);
            r.Some? && Consistent(hash, RecordsAfter(hash, syncs), r.value)
  {
    if syncs == [] {
    } else {
      var front, last := syncs[..|syncs| - 1], syncs[|syncs| - 1];
      RunReplays(hash, front);
      var sent, records := SentBy(hash, front), RecordsAfter(hash, front);
      SyncReplays(hash, records, last.fileData, Replay(map[], sent, false).value, last.order, last.recordOrder);
      ReplayConcat(map[], sent, SyncFor(hash, records, last.fileData, last.order, last.recordOrder), false);
    }
  }

  // ----- The URIs on the wire -----

  lemma UriInjective(f: Name, g: Name)
    requires Uri(f) == Uri(g)
    ensures f == g
  {
    assert Uri(f).chars[7..] == f.chars && Uri(g).chars[7..] == g.chars;
  }

  function UrisOf(files: set<Name>): set<Name> {
    set f | f in files :: Uri(f)
  }

  // The documents as the server would hold them under their URIs.
  ghost predicate KeyedByUri(docs: Documents, wire: Documents) {
    wire.Keys == UrisOf(docs.Keys) && forall f :: f in docs ==> wire[Uri(f)] == docs[f]
  }

  // As sync_files sends them: the URI of the file, but the bare name of a file it closes.
  ghost predicate AsSent(n: Notification) {
    n.uri == if n.DidClose? then n.filename else Uri(n.filename)
  }

  ghost predicate AllAsSent(sent: seq<Notification>) {
    forall n :: n in sent ==> AsSent(n)
  }

  predicate NoCloses(sent: seq<Notification>) {
    forall n :: n in sent ==> !n.DidClose?
  }

  // Opening and changing go by the URI as well as by the name.
  lemma UpdateByUri(docs: Documents, wire: Documents, n: Notification)
    requires KeyedByUri(docs, wire) && Apply(docs, n, false).Some? && AsSent(n) && !n.DidClose?
    ensures Apply(wire, n, true).Some? && KeyedByUri(Apply(docs, n, false).value, Apply(wire, n, true).value)
  {
    forall f | f in docs ensures f != n.filename ==> Uri(f) != Uri(n.filename) {
      if Uri(f) == Uri(n.filename) {
        UriInjective(f, n.filename);
      }
    }
    assert UrisOf(Apply(docs, n, false).value.Keys) == UrisOf(docs.Keys) + {Uri(n.filename)};
  }

  lemma {:induction false} UpdatesByUri(docs: Documents, wire: Documents, sent: seq<Notification>)
    requires KeyedByUri(docs, wire) && Replay(docs, sent, false).Some? && AllAsSent(sent) && NoCloses(sent)
    ensures FollowsByUri(wire, sent, Replay(docs, sent, false).value)
    decreases |sent|
  {
    if sent == [] {
    } else {
      assert sent[0] in sent;
      UpdateByUri(docs, wire, sent[0]);
      UpdatesByUri(Apply(docs, sent[0], false).value, Apply(wire, sent[0], true).value, sent[1..]);
    }
  }

  // The server, keyed by the URIs it is sent, ends in the documents `after`.
  ghost predicate FollowsByUri(wire: Documents, sent: seq<Notification>, after: Documents) {
    Replay(wire, sent, true).Some? && KeyedByUri(after, Replay(wire, sent, true).value)
  }

  // The lengths of a set of names, in all.
  ghost function TotalLength(names: set<Name>): nat {
    if names == {} then 0 else var f :| f in names; |f.chars| + TotalLength(names - {f})
  }

  lemma {:induction false} TotalLengthAdds(names: set<Name>, f: Name)
    requires f in names
    ensures TotalLength(names) == |f.chars| + TotalLength(names - {f})
  {
    var g :| g in names && TotalLength(names) == |g.chars| + TotalLength(names - {g});
    if f == g {
    } else {
      TotalLengthAdds(names - {g}, f);
      TotalLengthAdds(names - {f}, g);
      assert names - {g} - {f} == names - {f} - {g};
    }
  }

  lemma {:induction false} UrisTotalLength(files: set<Name>)
    ensures TotalLength(UrisOf(files)) == TotalLength(files) + 7 * |files|
  {
    if files == {} {
      assert UrisOf(files) == {};
    } else {
      var f :| f in files;
      UrisTotalLength(files - {f});
      forall g | g in files - {f} ensures Uri(g) != Uri(f) {
        if Uri(g) == Uri(f) {
          UriInjective(g, f);
        }
      }
      assert UrisOf(files) - {Uri(f)} == UrisOf(files - {f});
      TotalLengthAdds(files, f);
      TotalLengthAdds(UrisOf(files), Uri(f));
    }
  }

  lemma TotalLengthOneMore(names: set<Name>, f: Name)
    requires f !in names
    ensures TotalLength(names + {f}) == TotalLength(names) + |f.chars| && |names + {f}| == |names| + 1
  {
    TotalLengthAdds(names + {f}, f);
    assert names + {f} - {f} == names;
  }

  // By how much the names the server holds are too long to be the URIs of the documents the client means.
  ghost function Excess(docs: set<Name>, wire: set<Name>): int {
    TotalLength(wire) - TotalLength(docs) - 7 * |docs|
  }

  lemma ExcessOnOpen(files: set<Name>, names: set<Name>, f: Name)
    requires f !in files && Uri(f) !in names
    ensures Excess(files + {f}, names + {Uri(f)}) == Excess(files, names)
  {
    TotalLengthOneMore(files, f);
    TotalLengthOneMore(names, Uri(f));
  }

  lemma ExcessOnClose(files: set<Name>, names: set<Name>, f: Name)
    requires f in files && f in names
    ensures Excess(files - {f}, names - {f}) == Excess(files, names) + 7
  {
    TotalLengthOneMore(files - {f}, f);
    TotalLengthOneMore(names - {f}, f);
    assert files - {f} + {f} == files && names - {f} + {f} == names;
  }

  lemma AppliedKeys(docs: Documents, n: Notification, byUri: bool)
    requires Apply(docs, n, byUri).Some?
    ensures var keys, key := docs.Keys, Key(n, byUri);
            && (n.DidOpen? <==> key !in keys)
            && Apply(docs, n, byUri).value.Keys == if n.DidClose? then keys - {key} else keys + {key}
  {
  }

  // Opening and changing leave the excess as it is; a close, which drops a bare name for a URI, adds to it.
  lemma ExcessGrows(docs: Documents, wire: Documents, n: Notification)
    requires Apply(docs, n, false).Some? && Apply(wire, n, true).Some? && AsSent(n)
    ensures Excess(Apply(docs, n, false).value.Keys, Apply(wire, n, true).value.Keys)
            == Excess(docs.Keys, wire.Keys) + if n.DidClose? then 7 else 0
  {
    AppliedKeys(docs, n, false);
    AppliedKeys(wire, n, true);
    if n.DidOpen? {
      ExcessOnOpen(docs.Keys, wire.Keys, n.filename);
    } else if n.DidClose? {
      ExcessOnClose(docs.Keys, wire.Keys, n.filename);
    } else {
      assert docs.Keys + {n.filename} == docs.Keys && wire.Keys + {n.uri} == wire.Keys;
    }
  }

  lemma {:induction false} ClosesLeaveExcess(docs: Documents, wire: Documents, sent: seq<Notification>)
    requires Replay(docs, sent, false).Some? && Replay(wire, sent, true).Some? && AllAsSent(sent)
    ensures var excess := Excess(Replay(docs, sent, false).value.Keys, Replay(wire, sent, true).value.Keys);
            && excess >= Excess(docs.Keys, wire.Keys)
            && (!NoCloses(sent) ==> excess > Excess(docs.Keys, wire.Keys))
    decreases |sent|
  {
    if sent == [] {
    } else {
      assert sent[0] in sent;
      ExcessGrows(docs, wire, sent[0]);
      ClosesLeaveExcess(Apply(docs, sent[0], false).value, Apply(wire, sent[0], true).value, sent[1..]);
      assert sent == [sent[0]] + sent[1..];
    }
  }

  /** didClose sends the bare file name where didOpen and didChange send its URI. A server that knows its documents
      by URI follows what it is sent exactly when that closes nothing; once it has lost track, it never recovers. */
  lemma UrisFollowIffNoCloses(docs: Documents, wire: Documents, sent: seq<Notification>)
    requires KeyedByUri(docs, wire) && Replay(docs, sent, false).Some? && AllAsSent(sent)
    ensures FollowsByUri(wire, sent, Replay(docs, sent, false).value) <==> NoCloses(sent)
  {
    var after := Replay(docs, sent, false).value;
    if NoCloses(sent) {
      UpdatesByUri(docs, wire, sent);
    } else if FollowsByUri(wire, sent, after) {
      ClosesLeaveExcess(docs, wire, sent);
      UrisTotalLength(docs.Keys);
      UrisTotalLength(after.Keys);
      assert false;
    }
  }

  lemma {:induction false} UpdatesForAsSent(hash: ByteString -> nat, records: map<Name, File>,
                                            fileData: map<Name, FileData>, order: seq<Name>)
    requires HaveFiletypes(records, fileData) && AreRequested(order, fileData)
    ensures AllAsSent(UpdatesFor(hash, records, fileData, order))
    ensures NoCloses(UpdatesFor(hash, records, fileData, order))
  {
    if order == [] {
    } else {
      UpdatesForAsSent(hash, records, fileData, order[..|order| - 1]);
    }
  }

  lemma {:induction false} ClosesForAsSent(requested: set<Name>, order: seq<Name>)
    ensures AllAsSent(ClosesFor(requested, order))
    ensures NoCloses(ClosesFor(requested, order)) <==> forall f :: f in order ==> f in requested
  {
    if order == [] {
    } else {
      var front, last := order[..|order| - 1], order[|order| - 1];
      ClosesForAsSent(requested, front);
      assert order == front + [last];
      if last !in requested {
        assert DidClose(last, last) in ClosesFor(requested, order);
      } else {
        assert ClosesFor(requested, order) == ClosesFor(requested, front);
      }
    }
  }

  // A sync closes nothing exactly when every recorded file is requested.
  lemma SyncForAsSent(hash: ByteString -> nat, records: map<Name, File>, s: Sync)
    requires IsSync(records, s)
    ensures var sent := SyncFor(hash, records, s.fileData, s.order, s.recordOrder);
            AllAsSent(sent) && (NoCloses(sent) <==> records.Keys <= s.fileData.Keys)
  {
    UpdatesForAsSent(hash, records, s.fileData, s.order);
    ClosesForAsSent(s.fileData.Keys, s.recordOrder);
    AsSentConcat(UpdatesFor(hash, records, s.fileData, s.order), ClosesFor(s.fileData.Keys, s.recordOrder));
    assert forall f :: f in s.recordOrder <==> f in records || f in s.fileData;
  }

  // Sync k of the run requests every file that is open when it starts.
  ghost predicate ClosesNothing(hash: ByteString -> nat, syncs: seq<Sync>, k: nat)
    requires k < |syncs|
  {
    RecordsAfter(hash, syncs[..k]).Keys <= syncs[k].fileData.Keys
  }

  lemma AsSentConcat(a: seq<Notification>, b: seq<Notification>)
    ensures AllAsSent(a + b) <==> AllAsSent(a) && AllAsSent(b)
    ensures NoCloses(a + b) <==> NoCloses(a) && NoCloses(b)
  {
    assert forall n :: n in a + b <==> n in a || n in b;
  }

  // The last sync of a run, and those before it.
  lemma ClosesNothingSplits(hash: ByteString -> nat, syncs: seq<Sync>)
    requires syncs != []
    ensures var front, last := syncs[..|syncs| - 1], |syncs| - 1;
            (forall k: nat :: k < |syncs| ==> ClosesNothing(hash, syncs, k)) <==>
            (forall k: nat :: k < |front| ==> ClosesNothing(hash, front, k)) && ClosesNothing(hash, syncs, last)
  {
    var front := syncs[..|syncs| - 1];
    forall k: nat | k < |front| ensures ClosesNothing(hash, syncs, k) == ClosesNothing(hash, front, k) {
      assert syncs[..k] == front[..k] && syncs[k] == front[k];
    }
  }

  lemma {:induction false} SentByAsSent(hash: ByteString -> nat, syncs: seq<Sync>)
    requires IsRun(hash, syncs)
    ensures AllAsSent(SentBy(hash, syncs))
    ensures NoCloses(SentBy(hash, syncs)) <==> forall k: nat :: k < |syncs| ==> ClosesNothing(hash, syncs, k)
  {
    if syncs == [] {
    } else {
      var front, last := syncs[..|syncs| - 1], syncs[|syncs| - 1];
      var records := RecordsAfter(hash, front);
      SentByAsSent(hash, front);
      SyncForAsSent(hash, records, last);
      AsSentConcat(SentBy(hash, front), SyncFor(hash, records, last.fileData, last.order, last.recordOrder));
      ClosesNothingSplits(hash, syncs);
    }
  }

  /** A server that knows documents by URI ends a run in step with the client exactly when no sync of the run
      closed anything. */
  lemma RunFollowsIffNothingCloses(hash: ByteString -> nat, syncs: seq<Sync>)
    requires IsRun(hash, syncs)
    ensures Replay(map[], SentBy(hash, syncs), false).Some?
    ensures FollowsByUri(map[], SentBy(hash, syncs), Replay(map[], SentBy(hash, syncs), false).value)
            <==> forall k: nat :: k < |syncs| ==> ClosesNothing(hash, syncs, k)
  {
    RunReplays(hash, syncs);
    SentByAsSent(hash, syncs);
    assert UrisOf({}) == {};
    UrisFollowIffNoCloses(map[], map[], SentBy(hash, syncs));
  }
}
