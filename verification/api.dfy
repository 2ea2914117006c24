/**
  backend/main.py: the upload, delete, ask and list endpoints acting on the data
  directory, the state file and the module-level `vectorstore` handle.
 */
module Api {
  import opened Wrappers
  import opened RagPipeline

  /** An uploaded file: its `filename` and the number of bytes copied to disk. */
  datatype UploadFile = UploadFile(filename: string, size: nat)

  /** What `ask` raises instead of answering. */
  datatype AskFailure = HttpException(status: nat, detail: string) | Raised(error: ValueError)

  const NoPdfsUploaded := "No PDFs uploaded"

  /** The directory after writing `uploads` one after another, each under its filename. */
  function Stored(files: map<string, nat>, uploads: seq<UploadFile>): map<string, nat>
  {
    if uploads == [] then files
    else
      var last := uploads[|uploads| - 1];
      Stored(files, uploads[..|uploads| - 1])[last.filename := last.size]
  }

  function Filenames(uploads: seq<UploadFile>): set<string>
  {
    set u | u in uploads :: u.filename
  }

  /** After an upload the directory holds the files that were there and the uploaded ones. */
  lemma {:induction false} StoredKeys(files: map<string, nat>, uploads: seq<UploadFile>)
    ensures Stored(files, uploads).Keys == files.Keys + Filenames(uploads)
  {
    if uploads != [] {
      var n := |uploads| - 1;
      StoredKeys(files, uploads[..n]);
      assert uploads == uploads[..n] + [uploads[n]];
      assert Filenames(uploads) == Filenames(uploads[..n]) + {uploads[n].filename};
    }
  }

  /** A file that no upload names keeps its size. */
  lemma {:induction false} StoredUntouched(files: map<string, nat>, uploads: seq<UploadFile>, name: string)
    requires name in files && name !in Filenames(uploads)
    ensures name in Stored(files, uploads) && Stored(files, uploads)[name] == files[name]
  {
    if uploads != [] {
      var n := |uploads| - 1;
      assert uploads[n] in uploads;
      assert Filenames(uploads[..n]) <= Filenames(uploads);
      StoredUntouched(files, uploads[..n], name);
    }
  }

  /**
    The last upload of a name wins: a later file of the same name overwrites an
    earlier one.
   */
  lemma {:induction false} StoredLastWins(files: map<string, nat>, uploads: seq<UploadFile>, i: nat)
    requires i < |uploads| && uploads[i].filename !in Filenames(uploads[i + 1..])
    ensures uploads[i].filename in Stored(files, uploads)
    ensures Stored(files, uploads)[uploads[i].filename] == uploads[i].size
  {
    var n := |uploads| - 1;
    if i < n {
      var init := uploads[..n];
      assert uploads[n] in uploads[i + 1..];
      assert init[i] == uploads[i];
      assert init[i + 1..] == uploads[i + 1..n];
      assert Filenames(init[i + 1..]) <= Filenames(uploads[i + 1..]);
      StoredLastWins(files, init, i);
    }
  }

  /** The directory after unlinking every listed name that exists. */
  function Deleted(files: map<string, nat>, names: seq<string>): (r: map<string, nat>)
    ensures forall n :: n in r <==> n in files && n !in names
    ensures forall n | n in r :: r[n] == files[n]
  {
    map n | n in files && n !in names :: files[n]
  }

  /** The service: its data directory and state file, and the active handle. */
  class App {
    const disk: Disk
    /** The module-level `vectorstore`; `None` until built and after invalidation. */
    var vectorstore: Option<Index>
    /** How many vector stores `ask` has built. */
    ghost var builds: nat

    /** Module load: no handle yet; the directory and state file are what is on disk. */
    constructor (disk: Disk)
      ensures this.disk == disk && vectorstore == None && builds == 0
    {
      this.disk := disk;
      vectorstore := None;
      builds := 0;
    }

    /** The state file is missing or holds the fingerprint of the directory. */
    ghost predicate Synced()
      reads this, disk
    {
      disk.stateFile == None || disk.stateFile == Some(Fingerprint(disk.digest, PdfsOf(disk.files)))
    }

    /** Synced, and an active handle was built from PDFs with the directory's fingerprint. */
    ghost predicate Consistent()
      reads this, disk
    {
      && Synced()
      && (vectorstore != None ==>
            Fingerprint(disk.digest, vectorstore.value.pdfs) == Fingerprint(disk.digest, PdfsOf(disk.files)))
    }

    /**
      When the digest does not collide on the handle's and the directory's
      listings and no PDF name holds '|', a consistent handle was built from
      exactly the PDFs (names and sizes) now in the directory.
     */
    lemma ActiveHandleMatchesDirectory()
      requires Consistent() && vectorstore != None
      requires NoCollision(disk.digest, vectorstore.value.pdfs, PdfsOf(disk.files))
      requires NoBarInNames(vectorstore.value.pdfs) && NoBarInNames(PdfsOf(disk.files))
      ensures vectorstore.value.pdfs == PdfsOf(disk.files)
    {
      FingerprintDeterminesPdfs(disk.digest, vectorstore.value.pdfs, PdfsOf(disk.files));
    }

    /**
      `upload_pdf`: writes every file, then drops the handle exactly when
      `pdfs_changed()` reports a change.
     */
    method Upload(uploads: seq<UploadFile>)
      modifies this`vectorstore, disk
      ensures disk.files == Stored(old(disk.files), uploads)
      ensures disk.stateFile == Some(Fingerprint(disk.digest, PdfsOf(disk.files)))
      ensures vectorstore == if old(disk.stateFile) == disk.stateFile then old(vectorstore) else None
      ensures (old(disk.stateFile) == Some(Fingerprint(disk.digest, PdfsOf(old(disk.files)))) &&
               PdfsOf(disk.files) == PdfsOf(old(disk.files)))
              ==> vectorstore == old(vectorstore)
      ensures (old(Synced()) &&
               Fingerprint(disk.digest, PdfsOf(disk.files)) != Fingerprint(disk.digest, PdfsOf(old(disk.files))))
              ==> vectorstore == None
      ensures disk.stateWrites ==
        if old(disk.stateFile) == disk.stateFile then old(disk.stateWrites) else old(disk.stateWrites) + 1
      ensures old(Consistent()) ==> Consistent()
    {
      var i := 0;
      while i < |uploads|
        invariant 0 <= i <= |uploads|
        invariant disk.files == Stored(old(disk.files), uploads[..i])
        invariant disk.stateFile == old(disk.stateFile) && vectorstore == old(vectorstore)
        invariant disk.stateWrites == old(disk.stateWrites)
      {
        assert uploads[..i + 1][..i] == uploads[..i];
        disk.files := disk.files[uploads[i].filename := uploads[i].size];
        i := i + 1;
      }
      assert uploads[..i] == uploads;
      var changed := disk.PdfsChanged();
      if changed {
        vectorstore := None;
      }
    }

    /**
      `delete_pdf`: unlinks the listed files that exist, skips the others, then
      always drops the handle and refreshes the state file.
     */
    method Delete(names: seq<string>)
      modifies this`vectorstore, disk
      ensures disk.files == Deleted(old(disk.files), names)
      ensures vectorstore == None
      ensures disk.stateFile == Some(Fingerprint(disk.digest, PdfsOf(disk.files)))
      ensures disk.stateWrites ==
        if old(disk.stateFile) == disk.stateFile then old(disk.stateWrites) else old(disk.stateWrites) + 1
      ensures Consistent()
    {
      var i := 0;
      while i < |names|
        invariant 0 <= i <= |names|
        invariant disk.files == Deleted(old(disk.files), names[..i])
        invariant disk.stateFile == old(disk.stateFile) && disk.stateWrites == old(disk.stateWrites)
      {
        assert forall n :: n in names[..i + 1] <==> n in names[..i] || n == names[i];
        if names[i] in disk.files {
          disk.files := disk.files - {names[i]};
        }
        i := i + 1;
      }
      assert names[..i] == names;
      vectorstore := None;
      var _ := disk.PdfsChanged();
    }

    /**
      `ask`: refuses when there is no PDF, builds a vector store only when there
      is no handle (keeping it on success), and answers from the handle.
     */
    method Ask(question: string, documents: seq<Document>, apiKey: Option<string>,
               search: (Index, string, nat) -> seq<Document>, llm: string -> string)
      returns (r: Result<string, AskFailure>)
      modifies this`vectorstore, this`builds
      ensures PdfsOf(disk.files) == map[] ==>
        r == Failure(HttpException(400, NoPdfsUploaded)) &&
        vectorstore == old(vectorstore) && builds == old(builds)
      ensures PdfsOf(disk.files) != map[] && old(vectorstore) != None ==>
        vectorstore == old(vectorstore) && builds == old(builds) &&
        r == Success(GetAnswerFromGroq(question, vectorstore.value, apiKey, search, llm).answer)
      ensures PdfsOf(disk.files) != map[] && old(vectorstore) == None ==>
        match CreateVectorstore(PdfsOf(disk.files), documents)
        case Failure(e) => r == Failure(Raised(e)) && vectorstore == None && builds == old(builds)
        case Success(index) =>
          vectorstore == Some(index) && builds == old(builds) + 1 &&
          r == Success(GetAnswerFromGroq(question, index, apiKey, search, llm).answer)
      ensures old(Consistent()) ==> Consistent()
      ensures old(Synced()) && old(vectorstore) == None ==> Consistent()
    {
      var pdfs := PdfsOf(disk.files);
      if |pdfs| == 0 {
        return Failure(HttpException(400, NoPdfsUploaded));
      }
      if vectorstore == None {
        var built := CreateVectorstore(pdfs, documents);
        if built.Failure? {
          return Failure(Raised(built.error));
        }
        vectorstore := Some(built.value);
        builds := builds + 1;
      }
      r := Success(GetAnswerFromGroq(question, vectorstore.value, apiKey, search, llm).answer);
    }

    /** `list_pdfs`: the name of every PDF in the directory, once each, in listing order. */
    method ListPdfs() returns (names: seq<string>)
      ensures forall n :: n in names <==> n in disk.files && IsPdf(n)
      ensures forall i, j | 0 <= i < j < |names| :: names[i] != names[j]
    {
      var rest := set n | n in disk.files && IsPdf(n);
      names := [];
      while rest != {}
        invariant forall n :: n in disk.files && IsPdf(n) <==> n in names || n in rest
        invariant forall n | n in names :: n !in rest
        invariant forall i, j | 0 <= i < j < |names| :: names[i] != names[j]
        decreases |rest|
      {
        var n :| n in rest;
        names := names + [n];
        rest := rest - {n};
      }
    }
  }
}
