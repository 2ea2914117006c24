/**
  backend/my_rag_pipeline.py: the PDF fingerprint and its state file, the
  empty-corpus guard of `create_vectorstore`, and the decisions and prompt of
  `get_answer_from_groq`. MD5, the PDF loaders, the text splitter, the
  embeddings, Chroma and the Groq model are collaborators: MD5 is the `digest`
  function a `Disk` is built with, search and the model are function parameters.
 */
module RagPipeline {
  import opened Wrappers
  import opened Strings
  import opened Order

  // ---------------------------------------------------------------- PDF state

  /** `DATA_PATH.glob("*.pdf")` matches a name ending in ".pdf" (case-sensitive). */
  predicate IsPdf(name: string)
  {
    |name| >= 4 && name[|name| - 4..] == ".pdf"
  }

  /** The pattern "*.pdf": any stem, the empty one included, followed by ".pdf". */
  lemma IsPdfGlob(name: string)
    ensures IsPdf(name) <==> exists stem :: name == stem + ".pdf"
  {
    if IsPdf(name) {
      assert name == name[..|name| - 4] + ".pdf";
    }
  }

  /** The PDFs of a directory, name to size in bytes. */
  function PdfsOf(files: map<string, nat>): map<string, nat>
  {
    map n | n in files && IsPdf(n) :: files[n]
  }

  /** One fingerprint entry: `f"{pdf.name}:{pdf.stat().st_size}"`. */
  function Item(name: string, size: nat): string
  {
    name + ":" + DecimalString(size)
  }

  /** Reads an entry back: the text before its last ':' and the number after it. */
  function ParseItem(item: string): Option<(string, nat)>
  {
    if ':' !in item then None
    else
      var i := LastIndexOf(item, ':');
      var digits := item[i + 1..];
      if forall ch | ch in digits :: IsDigit(ch) then Some((item[..i], ParseDecimal(digits)))
      else None
  }

  /** An entry determines its name and size, even when the name holds ':'. */
  lemma ParseItemOfItem(name: string, size: nat)
    ensures ParseItem(Item(name, size)) == Some((name, size))
  {
    var d := DecimalString(size);
    var item := name + [':'] + d;
    assert Item(name, size) == item;
    LastIndexOfBefore(name, d, ':');
    assert item[..|name|] == name;
    assert item[|name| + 1..] == d;
    ParseDecimalString(size);
  }

  /** The entries for `names`, in that order. */
  function ItemsOf(names: seq<string>, pdfs: map<string, nat>): seq<string>
    requires forall n | n in names :: n in pdfs
  {
    seq(|names|, i requires 0 <= i < |names| => Item(names[i], pdfs[names[i]]))
  }

  lemma ItemsOfSnoc(names: seq<string>, n: string, pdfs: map<string, nat>)
    requires forall m | m in names :: m in pdfs
    requires n in pdfs
    ensures ItemsOf(names + [n], pdfs) == ItemsOf(names, pdfs) + [Item(n, pdfs[n])]
  {
  }

  /** The string `compute_pdf_state` hands to MD5: the entries sorted by name, joined by '|'. */
  ghost function RawState(pdfs: map<string, nat>): string
  {
    Join(Entries(pdfs), "|")
  }

  /** The entries of all PDFs, sorted by name. */
  ghost function Entries(pdfs: map<string, nat>): seq<string>
  {
    SortedNamesSpec(pdfs.Keys);
    ItemsOf(SortedNames(pdfs.Keys), pdfs)
  }

  /** What `compute_pdf_state` returns for the PDFs `pdfs`. */
  ghost function Fingerprint(digest: string -> string, pdfs: map<string, nat>): string
  {
    digest(RawState(pdfs))
  }

  /** No PDF name holds the '|' that separates entries. */
  predicate NoBarInNames(pdfs: map<string, nat>)
  {
    forall n | n in pdfs :: '|' !in n
  }

  lemma ItemsSeparable(names: seq<string>, pdfs: map<string, nat>)
    requires NoBarInNames(pdfs)
    requires forall n | n in names :: n in pdfs
    ensures forall x | x in ItemsOf(names, pdfs) :: x != [] && '|' !in x
  {
    forall x | x in ItemsOf(names, pdfs)
      ensures x != [] && '|' !in x
    {
      var i :| 0 <= i < |names| && ItemsOf(names, pdfs)[i] == x;
      assert names[i] in names;
      var d := DecimalString(pdfs[names[i]]);
      assert x == names[i] + ":" + d;
      assert '|' !in d;
    }
  }

  /**
    The raw state determines the PDFs (names and sizes) when no name holds '|':
    any upload or delete that changes a (name, size) pair changes the raw state.
   */
  lemma RawStateInjective(p: map<string, nat>, q: map<string, nat>)
    requires NoBarInNames(p) && NoBarInNames(q)
    requires RawState(p) == RawState(q)
    ensures p == q
  {
    SortedNamesSpec(p.Keys);
    SortedNamesSpec(q.Keys);
    var np, nq := SortedNames(p.Keys), SortedNames(q.Keys);
    var ip, iq := Entries(p), Entries(q);
    ItemsSeparable(np, p);
    ItemsSeparable(nq, q);
    JoinInjective(ip, iq, '|');
    assert |np| == |nq|;
    forall i | 0 <= i < |np|
      ensures np[i] == nq[i] && p[np[i]] == q[nq[i]]
    {
      assert np[i] in np && nq[i] in nq;
      assert ip[i] == iq[i];
      ParseItemOfItem(np[i], p[np[i]]);
      ParseItemOfItem(nq[i], q[nq[i]]);
    }
    assert np == nq;
    assert p.Keys == q.Keys;
    forall n | n in p
      ensures p[n] == q[n]
    {
      var i :| 0 <= i < |np| && np[i] == n;
    }
  }

  /** The sorted listing of a one-name set is that name. */
  lemma SortedSingleton(n: string)
    ensures SortedNames({n}) == [n]
  {
    SortedNamesUnfold({n}, n);
    assert {n} - {n} == {};
  }

  lemma EntriesOfTwoFiles()
    ensures Entries(map["x.pdf" := 1, "y.pdf" := 2]) == ["x.pdf:1", "y.pdf:2"]
  {
    var p := map["x.pdf" := 1, "y.pdf" := 2];
    assert LexLess("x.pdf", "y.pdf");
    assert IsLeast("x.pdf", p.Keys);
    SortedNamesUnfold(p.Keys, "x.pdf");
    assert p.Keys - {"x.pdf"} == {"y.pdf"};
    SortedSingleton("y.pdf");
    assert DecimalString(1) == "1" && DecimalString(2) == "2";
    assert Item("x.pdf", 1) == "x.pdf:1" && Item("y.pdf", 2) == "y.pdf:2";
    assert ItemsOf(["x.pdf", "y.pdf"], p)[0] == "x.pdf:1";
    assert ItemsOf(["x.pdf", "y.pdf"], p)[1] == "y.pdf:2";
  }

  lemma EntriesOfOneFile()
    ensures Entries(map["x.pdf:1|y.pdf" := 2]) == ["x.pdf:1|y.pdf:2"]
  {
    var q := map["x.pdf:1|y.pdf" := 2];
    assert q.Keys == {"x.pdf:1|y.pdf"};
    SortedSingleton("x.pdf:1|y.pdf");
    assert DecimalString(2) == "2";
    assert Item("x.pdf:1|y.pdf", 2) == "x.pdf:1|y.pdf:2";
    assert ItemsOf(["x.pdf:1|y.pdf"], q)[0] == "x.pdf:1|y.pdf:2";
  }

  /**
    The limit of that: a name holding '|' can mimic two files. The directories
    {x.pdf: 1, y.pdf: 2} and {"x.pdf:1|y.pdf": 2} have the same raw state.
   */
  lemma RawStateCollision()
    ensures var p, q := map["x.pdf" := 1, "y.pdf" := 2], map["x.pdf:1|y.pdf" := 2];
      (forall n | n in p :: IsPdf(n)) && (forall n | n in q :: IsPdf(n)) &&
      p != q && RawState(p) == RawState(q)
  {
    var p, q := map["x.pdf" := 1, "y.pdf" := 2], map["x.pdf:1|y.pdf" := 2];
    assert IsPdf("x.pdf") && IsPdf("y.pdf") && IsPdf("x.pdf:1|y.pdf");
    assert "x.pdf" in p && "x.pdf" !in q;
    EntriesOfTwoFiles();
    EntriesOfOneFile();
    assert Join(["x.pdf:1", "y.pdf:2"], "|") == "x.pdf:1|y.pdf:2";
  }

  /**
    The digest does not collide on the raw states of `p` and `q`. MD5 is not
    injective (its output has 32 hex digits), so this is assumed only of the
    two listings compared.
   */
  ghost predicate NoCollision(digest: string -> string, p: map<string, nat>, q: map<string, nat>)
  {
    digest(RawState(p)) == digest(RawState(q)) ==> RawState(p) == RawState(q)
  }

  /**
    When the digest does not collide on these two listings, equal fingerprints
    mean equal PDFs (names and sizes). File contents are not part of the
    fingerprint at all.
   */
  lemma FingerprintDeterminesPdfs(digest: string -> string, p: map<string, nat>, q: map<string, nat>)
    requires NoCollision(digest, p, q)
    requires NoBarInNames(p) && NoBarInNames(q)
    requires Fingerprint(digest, p) == Fingerprint(digest, q)
    ensures p == q
  {
    RawStateInjective(p, q);
  }

  /**
    The loop of `compute_pdf_state`: visits the PDFs in sorted order, whatever
    order the directory lists them in, and appends one entry per file.
   */
  method SortedItems(pdfs: map<string, nat>) returns (items: seq<string>)
    ensures items == Entries(pdfs)
  {
    var rest := pdfs.Keys;
    ghost var visited: seq<string> := [];
    items := [];
    while rest != {}
      invariant SortedItemsInvariant(pdfs, rest, visited, items)
      decreases |rest|
    {
      var name := PickLeast(rest);
      SortedStep(pdfs, rest, visited, items, name);
      items := items + [Item(name, pdfs[name])];
      visited := visited + [name];
      rest := rest - {name};
    }
    SortedDone(pdfs, visited, items);
  }

  /** Picks the least name still to visit. */
  method PickLeast(rest: set<string>) returns (name: string)
    requires rest != {}
    ensures name in rest && IsLeast(name, rest)
  {
    LeastExists(rest);
    name :| IsLeast(name, rest);
  }

  /** Once every name is visited, the entries are those of the whole directory. */
  lemma SortedDone(pdfs: map<string, nat>, visited: seq<string>, items: seq<string>)
    requires SortedItemsInvariant(pdfs, {}, visited, items)
    ensures items == Entries(pdfs)
  {
    assert SortedNames({}) == [];
    assert visited == SortedNames(pdfs.Keys);
  }

  /**
    Part way through the loop: `visited` are the names already visited, least
    first, `rest` the names still to visit, and `items` the entries so far.
   */
  ghost predicate SortedItemsInvariant(pdfs: map<string, nat>, rest: set<string>,
                                       visited: seq<string>, items: seq<string>)
  {
    && rest <= pdfs.Keys
    && visited + SortedNames(rest) == SortedNames(pdfs.Keys)
    && (forall n | n in visited :: n in pdfs)
    && items == ItemsOf(visited, pdfs)
  }

  lemma SortedStep(pdfs: map<string, nat>, rest: set<string>, visited: seq<string>,
                   items: seq<string>, name: string)
    requires SortedItemsInvariant(pdfs, rest, visited, items)
    requires IsLeast(name, rest)
    ensures SortedItemsInvariant(pdfs, rest - {name}, visited + [name], items + [Item(name, pdfs[name])])
  {
    SortedNamesUnfold(rest, name);
    ItemsOfSnoc(visited, name, pdfs);
  }

  /** The data directory and the state file, as the pipeline sees them. */
  class Disk {
    /** `DATA_PATH`: file name to size in bytes. */
    var files: map<string, nat>
    /** `STATE_FILE`: `None` while it does not exist. */
    var stateFile: Option<string>
    /** How many times the state file has been written. */
    ghost var stateWrites: nat
    /** `hashlib.md5(raw.encode()).hexdigest()`. */
    const digest: string -> string

    constructor (files: map<string, nat>, stateFile: Option<string>, digest: string -> string)
      ensures this.files == files && this.stateFile == stateFile && this.digest == digest
      ensures stateWrites == 0
    {
      this.files := files;
      this.stateFile := stateFile;
      this.digest := digest;
      stateWrites := 0;
    }

    /** `compute_pdf_state`: the digest of the sorted, joined entries. */
    method ComputePdfState() returns (state: string)
      ensures state == Fingerprint(digest, PdfsOf(files))
    {
      var items := SortedItems(PdfsOf(files));
      state := digest(Join(items, "|"));
    }

    /**
      `pdfs_changed`: the state file ends up holding the current fingerprint; it
      is written, and `true` returned, exactly when it was missing or different.
     */
    method PdfsChanged() returns (changed: bool)
      modifies this`stateFile, this`stateWrites
      ensures stateFile == Some(Fingerprint(digest, PdfsOf(files)))
      ensures changed <==> old(stateFile) != stateFile
      ensures old(stateFile) == None ==> changed
      ensures stateWrites == if changed then old(stateWrites) + 1 else old(stateWrites)
    {
      var newState := ComputePdfState();
      if stateFile == None {
        stateFile := Some(newState);
        stateWrites := stateWrites + 1;
        return true;
      }
      var oldState := stateFile.value;
      if oldState != newState {
        stateFile := Some(newState);
        stateWrites := stateWrites + 1;
        return true;
      }
      return false;
    }
  }

  // ---------------------------------------------------------------- vector store

  /** A LangChain `Document`: a page of text and the file it came from. */
  datatype Document = Document(source: string, pageContent: string)

  /**
    The store `create_vectorstore` returns: the PDFs present when it was built
    and the pages the loader produced. Chunking, embedding and persistence are
    not modelled.
   */
  datatype Index = Index(pdfs: map<string, nat>, documents: seq<Document>)

  /** A Python `ValueError` and its message. */
  datatype ValueError = ValueError(message: string)

  const NoPdfsFound := "No PDFs found"

  /**
    `create_vectorstore`, given what `load_pdfs` returned: no pages is an error
    raised before anything is built; otherwise the store covers every page.
   */
  function CreateVectorstore(pdfs: map<string, nat>, documents: seq<Document>): (r: Result<Index, ValueError>)
    ensures r.Failure? <==> documents == []
    ensures r.Failure? ==> r.error == ValueError(NoPdfsFound)
    ensures r.Success? ==> r.value.documents == documents && r.value.pdfs == pdfs
  {
    if documents == [] then Failure(ValueError(NoPdfsFound))
    else Success(Index(pdfs, documents))
  }

  // ---------------------------------------------------------------- answering

  const MissingKeyAnswer := "GROQ_API_KEY not set"
  const NotFoundAnswer := "The requested information was not found in the provided documents."
  /** The `k` of `similarity_search`. */
  const SearchK: nat := 30

  /** A call the answer logic makes to a collaborator. */
  datatype Call = SimilaritySearch(query: string, k: nat) | Invoke(prompt: string)

  /** The answer, and the collaborator calls made to reach it, in order. */
  datatype Reply = Reply(answer: string, calls: seq<Call>)

  /** `not api_key`: no key, or an empty one. */
  predicate KeyMissing(apiKey: Option<string>)
  {
    apiKey == None || apiKey.value == ""
  }

  function PageContents(docs: seq<Document>): seq<string>
  {
    seq(|docs|, i requires 0 <= i < |docs| => docs[i].pageContent)
  }

  /** `"\n\n".join(d.page_content for d in docs)` */
  function Context(docs: seq<Document>): string
  {
    Join(PageContents(docs), "\n\n")
  }

  /**
    The retrieved pages appear in the context verbatim and in retrieved order,
    each followed by a blank line and then the next page.
   */
  lemma ContextInRetrievedOrder(docs: seq<Document>, i: nat)
    requires i < |docs|
    ensures var o := Offset(PageContents(docs), "\n\n", i);
      o + |docs[i].pageContent| <= |Context(docs)| &&
      Context(docs)[o..o + |docs[i].pageContent|] == docs[i].pageContent
    ensures i + 1 < |docs| ==>
      var o := Offset(PageContents(docs), "\n\n", i);
      var o' := Offset(PageContents(docs), "\n\n", i + 1);
      o' == o + |docs[i].pageContent| + 2 <= |Context(docs)| &&
      Context(docs)[o + |docs[i].pageContent|..o'] == "\n\n"
  {
    JoinPart(PageContents(docs), "\n\n", i);
    if i + 1 < |docs| {
      JoinSeparator(PageContents(docs), "\n\n", i);
    }
  }

  const PromptHead := "\nYou are an academic assistant.\nAnswer ONLY using the context.\n\nCONTEXT:\n"
  const PromptMiddle := "\n\nQUESTION:\n"

  /**
    The prompt sent to the model: the instructions, then the context block,
    then the question, then a final newline.
   */
  function Prompt(context: string, query: string): (p: string)
    ensures |p| == |PromptHead| + |context| + |PromptMiddle| + |query| + 1
    ensures p[..|PromptHead|] == PromptHead
    ensures p[|PromptHead|..|PromptHead| + |context|] == context
    ensures p[|PromptHead| + |context|..|PromptHead| + |context| + |PromptMiddle|] == PromptMiddle
    ensures p[|PromptHead| + |context| + |PromptMiddle|..|p| - 1] == query
  {
    PromptHead + context + PromptMiddle + query + "\n"
  }

  /**
    `get_answer_from_groq`. Without a key nothing is called; with an empty
    search result the model is not called; otherwise the model is called once,
    on the prompt built from the pages in retrieved order, and its content is
    the answer.
   */
  function GetAnswerFromGroq(query: string, vectordb: Index, apiKey: Option<string>,
                             search: (Index, string, nat) -> seq<Document>,
                             llm: string -> string): (r: Reply)
    ensures KeyMissing(apiKey) ==> r == Reply(MissingKeyAnswer, [])
    ensures !KeyMissing(apiKey) ==> |r.calls| > 0 && r.calls[0] == SimilaritySearch(query, SearchK)
    ensures !KeyMissing(apiKey) && search(vectordb, query, SearchK) == [] ==>
      r == Reply(NotFoundAnswer, [SimilaritySearch(query, SearchK)])
    ensures (forall c | c in r.calls :: !c.Invoke?) <==>
      KeyMissing(apiKey) || search(vectordb, query, SearchK) == []
    ensures !KeyMissing(apiKey) && search(vectordb, query, SearchK) != [] ==>
      var prompt := Prompt(Context(search(vectordb, query, SearchK)), query);
      r.calls == [SimilaritySearch(query, SearchK), Invoke(prompt)] && r.answer == llm(prompt)
  {
    if KeyMissing(apiKey) then Reply(MissingKeyAnswer, [])
    else
      var docs := search(vectordb, query, SearchK);
      if docs == [] then Reply(NotFoundAnswer, [SimilaritySearch(query, SearchK)])
      else
        var prompt := Prompt(Context(docs), query);
        var calls := [SimilaritySearch(query, SearchK), Invoke(prompt)];
        assert calls[1] in calls;
        Reply(llm(prompt), calls)
  }
}
