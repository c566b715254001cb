/** The artifact writer, and a destination any of whose operations may fail. */
module Extraction {
  import opened Machine
  import opened Wrappers

  const READBACK_BYTES: nat := 64 * 1024

  // A digest as an ideal one: distinct byte strings have distinct digests.
  datatype Digest = Sha256(of: seq<u8>)

  datatype CreateResult = Created | AlreadyExists | CannotCreate

  datatype RemoveResult = Removed | NotFound | CannotRemove

  datatype StoreError = StoreError

  datatype StoreOperation = Creating | Writing | Flushing | ReadingBack | Removing

  // An operation on a path that failed.
  datatype StoreFault = StoreFault(operation: StoreOperation, path: string)

  /** The destination directory's filesystem. Every operation may fail, and a
      failed write or flush leaves arbitrary content behind. A store that is
      not lossless may also lose content it reported written. */
  class Store {
    const lossless: bool
    var files: map<string, seq<u8>>

    // Every path a creation was asked for, in order.
    ghost var attempts: seq<string>

    // Every operation that failed, in order.
    ghost var faults: seq<StoreFault>

    constructor (files: map<string, seq<u8>>, lossless: bool)
      ensures this.files == files && this.lossless == lossless && attempts == [] && faults == []
    {
      this.files := files;
      this.lossless := lossless;
      attempts := [];
      faults := [];
    }

    // Creates a file only where none exists, in one operation.
    method CreateNew(path: string) returns (r: CreateResult)
      modifies this
      ensures attempts == old(attempts) + [path]
      ensures r.Created? ==> path !in old(files) && files == old(files)[path := []]
      ensures r.AlreadyExists? ==> path in files
      ensures !r.Created? ==> files == old(files)
      ensures faults == old(faults) + if r.CannotCreate? then [StoreFault(Creating, path)] else []
    {
      attempts := attempts + [path];
      var fault: bool := *;
      if fault {
        faults := faults + [StoreFault(Creating, path)];
        return CannotCreate;
      }
      if path in files {
        return AlreadyExists;
      }
      files := files[path := []];
      r := Created;
    }

    method WriteAll(path: string, bytes: seq<u8>) returns (ok: bool)
      requires path in files
      modifies `files, `faults
      ensures path in files && files - {path} == old(files) - {path}
      ensures ok && lossless ==> files[path] == old(files)[path] + bytes
      ensures faults == old(faults) + if ok then [] else [StoreFault(Writing, path)]
    {
      var anything: seq<u8> := *;
      ok := *;
      faults := if ok then faults else faults + [StoreFault(Writing, path)];
      files := files[path := if ok && lossless then files[path] + bytes else anything];
    }

    method SyncAll(path: string) returns (ok: bool)
      requires path in files
      modifies `files, `faults
      ensures path in files && files - {path} == old(files) - {path}
      ensures ok && lossless ==> files[path] == old(files)[path]
      ensures faults == old(faults) + if ok then [] else [StoreFault(Flushing, path)]
    {
      var anything: seq<u8> := *;
      ok := *;
      faults := if ok then faults else faults + [StoreFault(Flushing, path)];
      if !(ok && lossless) {
        files := files[path := anything];
      }
    }

    method RemoveFile(path: string) returns (r: RemoveResult)
      modifies `files, `faults
      ensures r.Removed? ==> path in old(files) && files == old(files) - {path}
      ensures r.NotFound? ==> path !in files
      ensures !r.Removed? ==> files == old(files)
      ensures faults == old(faults) + if r.CannotRemove? then [StoreFault(Removing, path)] else []
    {
      var fault: bool := *;
      if fault {
        faults := faults + [StoreFault(Removing, path)];
        return CannotRemove;
      }
      if path !in files {
        return NotFound;
      }
      files := files - {path};
      r := Removed;
    }

    // Reads some of what lies past `position`: at least one byte unless
    // nothing does, and no more than `limit`.
    method Read(path: string, position: nat, limit: nat) returns (r: Result<seq<u8>, StoreError>)
      requires path in files && position <= |files[path]| && limit > 0
      modifies `faults
      ensures r.Success? ==>
        && |r.value| <= limit
        && r.value <= files[path][position..]
        && (r.value == [] <==> position == |files[path]|)
      ensures faults == old(faults) + if r.Success? then [] else [StoreFault(ReadingBack, path)]
    {
      var fault: bool := *;
      if fault {
        faults := faults + [StoreFault(ReadingBack, path)];
        return Failure(StoreError);
      }
      var rest: nat := |files[path]| - position;
      var served: nat := if rest < limit then rest else limit;
      var short: bool := *;
      if short && served > 0 {
        served :| 0 < served <= rest && served <= limit;
      }
      r := Success(files[path][position..position + served]);
    }
  }

  datatype Output =
    | Written(path: string, readback: Digest)
    | Unverified(path: string)
    | Exists(path: string)
    | NotCreated(path: string)
    | Failed(path: string, removed: bool)

  datatype ExtractionResult = ExtractionResult(
      digest: Digest, bytesHashed: nat, slackBytes: u32, output: Option<Output>)

  datatype Leftover = Leftover(path: string)

  datatype SinkState = Absent | Open | Taken | Unopened | Broken

  // The file the writer made is the only difference from the files before.
  ghost predicate OnlyAdds(before: map<string, seq<u8>>, files: map<string, seq<u8>>, path: string) {
    path !in before && path in files && files - {path} == before
  }

  // What each outcome says about the destination, having been given `pushed`.
  ghost predicate Delivered(output: Option<Output>, path: Option<string>, pushed: seq<u8>,
                            before: map<string, seq<u8>>, files: map<string, seq<u8>>, lossless: bool)
  {
    match output
    case None => path.None? && files == before
    case Some(Exists(p)) => path == Some(p) && p in before && files == before
    case Some(NotCreated(p)) => path == Some(p) && files == before
    case Some(Failed(p, removed)) =>
      path == Some(p) && p !in before && if removed then files == before else OnlyAdds(before, files, p)
    case Some(Unverified(p)) =>
      path == Some(p) && OnlyAdds(before, files, p) && (lossless ==> files[p] == pushed)
    case Some(Written(p, readback)) =>
      path == Some(p) && OnlyAdds(before, files, p) && readback == Sha256(files[p])
      && (lossless ==> files[p] == pushed)
  }

  // What went wrong for each outcome: nothing where the artifact is written or
  // its path was taken, else the operation the outcome is named for and, where
  // the file is still there, its removal.
  ghost predicate Explained(output: Option<Output>, faults: seq<StoreFault>) {
    match output
    case None => faults == []
    case Some(Exists(_)) => faults == []
    case Some(Written(_, _)) => faults == []
    case Some(NotCreated(p)) => faults == [StoreFault(Creating, p)]
    case Some(Unverified(p)) => faults == [StoreFault(ReadingBack, p)]
    case Some(Failed(p, removed)) =>
      exists cause :: cause in {Writing, Flushing}
        && faults == [StoreFault(cause, p)] + if removed then [] else [StoreFault(Removing, p)]
  }

  ghost predicate RemovalFailed(faults: seq<StoreFault>) {
    exists i :: 0 <= i < |faults| && faults[i].operation.Removing?
  }

  /** At a destination where nothing failed, an artifact is written whole
      unless a file already held its path, and that file is reported. */
  lemma OutcomeWithoutFaults(output: Option<Output>, path: string, pushed: seq<u8>, before: map<string, seq<u8>>,
                             files: map<string, seq<u8>>, lossless: bool)
    requires Delivered(output, Some(path), pushed, before, files, lossless) && Explained(output, [])
    ensures path in before ==> output == Some(Exists(path)) && files == before
    ensures path !in before ==>
      && path in files && output == Some(Written(path, Sha256(files[path])))
      && (lossless ==> files == before[path := pushed])
  {
    if path !in before && lossless {
      assert files == (files - {path})[path := pushed];
    }
  }

  /** Whatever became of the artifact, no file that was there before it is
      changed, and a read-back digest matches exactly when the file holds the
      bytes that were hashed. */
  lemma DeliveryPreservesFiles(output: Option<Output>, path: Option<string>, pushed: seq<u8>,
                               before: map<string, seq<u8>>, files: map<string, seq<u8>>, lossless: bool)
    requires Delivered(output, path, pushed, before, files, lossless)
    ensures forall p :: p in before ==> p in files && files[p] == before[p]
    ensures forall p :: p in files && p !in before ==> path == Some(p)
    ensures output.Some? && output.value.Written? ==>
      var w := output.value;
      w.path in files && (w.readback == Sha256(pushed) <==> files[w.path] == pushed)
    ensures lossless && output.Some? && output.value.Written? ==> output.value.readback == Sha256(pushed)
  {
    if output.Some? && (output.value.Failed? || output.value.Unverified? || output.value.Written?) {
      var own := output.value.path;
      forall p | p in before ensures p in files && files[p] == before[p] {
        if OnlyAdds(before, files, own) { assert p in files - {own}; }
      }
      forall p | p in files && p !in before ensures path == Some(p) {
        assert OnlyAdds(before, files, own) ==> p == own || p in files - {own};
      }
    }
  }

  /** A digest in progress, with a file beside it if a path was given. */
  class ArtifactWriter {
    const store: Store
    const path: Option<string>
    var hashed: seq<u8>
    var sink: SinkState

    // The files as they were before this writer began.
    ghost const before: map<string, seq<u8>>

    // How many operations had failed by then.
    ghost const earlier: nat

    ghost predicate Made() reads this { sink.Open? || sink.Broken? }

    ghost predicate Valid()
      reads this, store
    {
      && (path.None? <==> sink.Absent?)
      && (sink.Taken? ==> path.value in before)
      && (if Made() then OnlyAdds(before, store.files, path.value) else store.files == before)
      && (sink.Open? && store.lossless ==> store.files[path.value] == hashed)
      && earlier <= |store.faults| && Faults() == SinkFaults()
    }

    // The operations that failed for this writer.
    ghost function Faults(): seq<StoreFault>
      reads this, store
      requires earlier <= |store.faults|
    {
      store.faults[earlier..]
    }

    ghost function SinkFaults(): seq<StoreFault>
      reads this
      requires path.None? ==> sink.Absent?
    {
      if sink.Unopened? then [StoreFault(Creating, path.value)]
      else if sink.Broken? then [StoreFault(Writing, path.value)]
      else []
    }

    constructor Begin(store: Store, path: Option<string>)
      modifies store
      ensures Valid() && this.store == store && this.path == path && before == old(store.files)
      ensures hashed == [] && earlier == |old(store.faults)| && old(store.faults) <= store.faults
      ensures store.attempts == old(store.attempts) + if path.Some? then [path.value] else []
    {
      before := store.files;
      earlier := |store.faults|;
      var opening := OpenSink(store, path);
      this.store := store;
      this.path := path;
      hashed := [];
      sink := opening;
    }

    // Extends the digest's input whatever becomes of the file, which takes no
    // more once a write to it has failed.
    method Push(bytes: seq<u8>)
      requires Valid()
      modifies this`hashed, this`sink, store`files, store`faults
      ensures Valid() && hashed == old(hashed) + bytes && old(store.faults) <= store.faults
    {
      hashed := hashed + bytes;
      if sink.Open? {
        var ok := store.WriteAll(path.value, bytes);
        if !ok {
          sink := Broken;
        }
      }
    }

    method Finish(slackBytes: u32) returns (e: ExtractionResult)
      requires Valid()
      modifies store`files, store`faults
      ensures e.digest == Sha256(hashed) && e.bytesHashed == |hashed| && e.slackBytes == slackBytes
      ensures Delivered(e.output, path, hashed, before, store.files, store.lossless)
      ensures old(store.faults) <= store.faults && earlier <= |store.faults| && Explained(e.output, Faults())
    {
      var output := Settle();
      e := ExtractionResult(Sha256(hashed), |hashed|, slackBytes, output);
    }

    // After the evidence failed: the file this writer made is gone, or it is
    // the one returned, and then its removal was what failed.
    method Abort() returns (left: Option<Leftover>)
      requires Valid()
      modifies store`files, store`faults
      ensures left.None? ==> store.files == before
      ensures left.Some? ==> path == Some(left.value.path) && OnlyAdds(before, store.files, left.value.path)
      ensures store.faults
           == old(store.faults) + if left.Some? then [StoreFault(Removing, left.value.path)] else []
      ensures left.Some? <==> RemovalFailed(Faults())
    {
      if !(sink.Open? || sink.Broken?) {
        return None;
      }
      var removal := store.RemoveFile(path.value);
      assert removal.CannotRemove? ==> Faults()[|Faults()| - 1] == StoreFault(Removing, path.value);
      left := if removal.CannotRemove? then Some(Leftover(path.value)) else None;
    }

    // Ends the file's part: every outcome is one the destination bears out.
    method Settle() returns (output: Option<Output>)
      requires Valid()
      modifies store`files, store`faults
      ensures Delivered(output, path, hashed, before, store.files, store.lossless)
      ensures old(store.faults) <= store.faults && earlier <= |store.faults| && Explained(output, Faults())
    {
      match sink
      case Absent => output := None;
      case Taken => output := Some(Exists(path.value));
      case Unopened => output := Some(NotCreated(path.value));
      case Broken =>
        var removal := store.RemoveFile(path.value);
        output := Some(Failed(path.value, removal.Removed?));
      case Open =>
        var flushed := store.SyncAll(path.value);
        if !flushed {
          var removal := store.RemoveFile(path.value);
          return Some(Failed(path.value, removal.Removed?));
        }
        var readback := ReadBack(store, path.value);
        output := Some(if readback.Success? then Written(path.value, readback.value) else Unverified(path.value));
    }
  }

  method OpenSink(store: Store, path: Option<string>) returns (sink: SinkState)
    modifies store
    ensures store.attempts == old(store.attempts) + if path.Some? then [path.value] else []
    ensures path.None? <==> sink.Absent?
    ensures !sink.Broken?
    ensures sink.Taken? ==> path.value in old(store.files)
    ensures sink.Open? ==> path.value !in old(store.files) && store.files == old(store.files)[path.value := []]
    ensures !sink.Open? ==> store.files == old(store.files)
    ensures store.faults == old(store.faults) + if sink.Unopened? then [StoreFault(Creating, path.value)] else []
  {
    if path.None? {
      return Absent;
    }
    var created := store.CreateNew(path.value);
    sink := if created.Created? then Open else if created.AlreadyExists? then Taken else Unopened;
  }

  // Hashes a written file in pieces of whatever size each read returns.
  method ReadBack(store: Store, path: string) returns (r: Result<Digest, StoreError>)
    requires path in store.files
    modifies store`faults
    ensures r.Success? ==> r.value == Sha256(store.files[path])
    ensures store.faults == old(store.faults) + if r.Success? then [] else [StoreFault(ReadingBack, path)]
  {
    var content := store.files[path];
    var hashed: seq<u8> := [];
    while true
      invariant |hashed| <= |content| && hashed == content[..|hashed|]
      invariant store.faults == old(store.faults)
      decreases |content| - |hashed|
    {
      var piece :- store.Read(path, |hashed|, READBACK_BYTES);
      if piece == [] {
        break;
      }
      var next := |hashed| + |piece|;
      assert content[..next] == content[..|hashed|] + content[|hashed|..next];
      hashed := hashed + piece;
    }
    r := Success(Sha256(hashed));
  }
}
