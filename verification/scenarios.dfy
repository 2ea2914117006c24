/** Clients of the model that replay concrete sequences of calls. */
module Scenarios {
  import opened Wrappers
  import opened RagPipeline
  import opened Api

  /** With {a.pdf: 100} and no state file, a first check reports a change and a second does not. */
  method RepeatedCheck(digest: string -> string) returns (first: bool, second: bool)
    ensures first && !second
  {
    var disk := new Disk(map["a.pdf" := 100], None, digest);
    first := disk.PdfsChanged();
    second := disk.PdfsChanged();
  }

  /** On any disk, a check right after a check reports no change and writes nothing. */
  method CheckTwice(disk: Disk) returns (first: bool, second: bool)
    modifies disk`stateFile, disk`stateWrites
    ensures !second
    ensures disk.stateWrites == if first then old(disk.stateWrites) + 1 else old(disk.stateWrites)
  {
    first := disk.PdfsChanged();
    second := disk.PdfsChanged();
  }

  /** Two questions with no upload or delete between them build at most one vector store. */
  method AskTwice(app: App, q1: string, q2: string, documents: seq<Document>, apiKey: Option<string>,
                  search: (Index, string, nat) -> seq<Document>, llm: string -> string)
    returns (r1: Result<string, AskFailure>, r2: Result<string, AskFailure>)
    modifies app`vectorstore, app`builds
    ensures app.builds <= old(app.builds) + 1
  {
    r1 := app.Ask(q1, documents, apiKey, search, llm);
    r2 := app.Ask(q2, documents, apiKey, search, llm);
  }

  /** After a delete the next question rebuilds, as long as PDFs with pages remain. */
  method DeleteThenAsk(app: App, names: seq<string>, q: string, documents: seq<Document>,
                       apiKey: Option<string>, search: (Index, string, nat) -> seq<Document>,
                       llm: string -> string)
    returns (r: Result<string, AskFailure>)
    modifies app`vectorstore, app`builds, app.disk
    ensures PdfsOf(app.disk.files) != map[] && documents != [] ==>
      app.builds == old(app.builds) + 1 && app.vectorstore == Some(Index(PdfsOf(app.disk.files), documents))
  {
    app.Delete(names);
    r := app.Ask(q, documents, apiKey, search, llm);
  }

  lemma OnlyPdfs(files: map<string, nat>)
    requires forall n | n in files :: IsPdf(n)
    ensures PdfsOf(files) == files
  {
  }

  /**
    A state file that does not match the directory at start-up (it was written
    when the directory held PDFs a and b; b was removed while the server was
    down) lets an upload that restores b keep a handle built without b.
   */
  method StaleStateFile(a: string, sa: nat, b: string, sb: nat, digest: string -> string,
                        question: string, documents: seq<Document>, apiKey: Option<string>,
                        search: (Index, string, nat) -> seq<Document>, llm: string -> string)
    returns (handle: Option<Index>, present: map<string, nat>)
    requires IsPdf(a) && IsPdf(b) && a != b
    requires documents != []
    ensures present == map[a := sa, b := sb]
    ensures handle.Some? && handle.value.pdfs == map[a := sa]
    ensures handle.value.pdfs != present
  {
    var before := new Disk(map[a := sa, b := sb], None, digest);
    var recorded := before.ComputePdfState();
    var disk := new Disk(map[a := sa], Some(recorded), digest);
    var app := new App(disk);
    OnlyPdfs(disk.files);
    assert a in PdfsOf(disk.files);
    assert CreateVectorstore(PdfsOf(disk.files), documents) == Success(Index(map[a := sa], documents));
    var _ := app.Ask(question, documents, apiKey, search, llm);
    assert app.vectorstore == Some(Index(map[a := sa], documents));
    var uploads := [UploadFile(b, sb)];
    assert Stored(map[a := sa], uploads) == map[a := sa, b := sb] by {
      assert uploads[..0] == [];
    }
    app.Upload(uploads);
    assert disk.files == before.files;
    OnlyPdfs(disk.files);
    handle := app.vectorstore;
    present := PdfsOf(disk.files);
    assert b in present && b !in handle.value.pdfs;
  }

  /**
    Without a state file the first upload always reports a change, so a handle
    built by a question before it is dropped even when the upload rewrites a
    file with the same name and size: `ask` never writes the state file.
   */
  method ColdStartUpload(a: string, sa: nat, digest: string -> string,
                         question: string, documents: seq<Document>, apiKey: Option<string>,
                         search: (Index, string, nat) -> seq<Document>, llm: string -> string)
    returns (before: Option<Index>, after: Option<Index>, present: map<string, nat>)
    requires IsPdf(a)
    requires documents != []
    ensures before == Some(Index(map[a := sa], documents))
    ensures present == map[a := sa] == before.value.pdfs
    ensures after == None
  {
    var disk := new Disk(map[a := sa], None, digest);
    var app := new App(disk);
    OnlyPdfs(disk.files);
    assert a in PdfsOf(disk.files);
    var _ := app.Ask(question, documents, apiKey, search, llm);
    before := app.vectorstore;
    var uploads := [UploadFile(a, sa)];
    assert Stored(map[a := sa], uploads) == map[a := sa] by {
      assert uploads[..0] == [];
    }
    app.Upload(uploads);
    OnlyPdfs(disk.files);
    after := app.vectorstore;
    present := PdfsOf(disk.files);
  }
}
