/** The question-answering orchestrator: it assembles the document corpus
    from the article file and the patient store, builds the retrieval index,
    the language model and the question-answering chain lazily, and packages
    an answer with its source excerpts and a confidence label.

    The index, the model and the chain are library objects; here they are
    opaque values that record what they were built from. Retrieval and
    generation are oracles passed to `Ask`. */
module MedicalRag {
  import opened Wrappers
  import opened Text
  import opened Sequences
  import opened Patients
  import opened AnswerProcessing

  /** One entry of the article file. */
  datatype Article = Article(title: string, abstractText: string, source: string, url: string)

  /** The vector index over a corpus (chunking and embeddings not modelled). */
  datatype VectorIndex = VectorIndex(documents: seq<string>)

  /** The local language model, known by its name. */
  datatype LanguageModel = LanguageModel(name: string)

  /** The question-answering chain: the retriever of the index it was built
      with, and the model. */
  datatype QaChain = QaChain(index: VectorIndex, llm: LanguageModel)

  /** What `Ask` returns. */
  datatype Response = Response(answer: string, sources: seq<string>, confidence: string)

  const PatientDataDir := "patient_data"
  const EmbeddingModelName := "sentence-transformers/all-MiniLM-L6-v2"
  const ModelName := "TinyLlama/TinyLlama-1.1B-Chat-v1.0"
  const NoDocumentsMessage := "No documents found. Run data_collector.py first!"
  const PatientRecordPrefix := "PATIENT RECORD:\n"

  /** The text of one article document. */
  function ArticleText(a: Article): string
  {
    "Title: " + a.title + "\n\n" + "Abstract: " + a.abstractText + "\n\n"
    + "Source: " + a.source + "\n" + "URL: " + a.url
  }

  function PatientRecordText(summary: string): string
  {
    PatientRecordPrefix + summary
  }

  predicate IsPatientRecord(document: string)
  {
    PatientRecordPrefix <= document
  }

  /** The articles of the article file; a missing file contributes none. */
  function ArticlesOf(articleFile: Option<seq<Article>>): seq<Article>
  {
    if articleFile.Some? then articleFile.value else []
  }

  function ArticleTexts(articles: seq<Article>): (r: seq<string>)
    ensures |r| == |articles|
  {
    seq(|articles|, k requires 0 <= k < |articles| => ArticleText(articles[k]))
  }

  function PatientRecords(summaries: seq<string>): (r: seq<string>)
    ensures |r| == |summaries|
  {
    seq(|summaries|, k requires 0 <= k < |summaries| => PatientRecordText(summaries[k]))
  }

  /** The corpus: every article's text, then every patient summary marked
      as a patient record. */
  function Corpus(articles: seq<Article>, summaries: seq<string>): seq<string>
  {
    ArticleTexts(articles) + PatientRecords(summaries)
  }

  /** One document per article, in file order, then one per summary, in
      store order; a document is a patient record exactly when it comes
      after all the articles. */
  lemma CorpusLayout(articles: seq<Article>, summaries: seq<string>)
    ensures var docs := Corpus(articles, summaries);
            && |docs| == |articles| + |summaries|
            && (forall k :: 0 <= k < |articles| ==> docs[k] == ArticleText(articles[k]))
            && (forall k :: 0 <= k < |summaries| ==>
                  docs[|articles| + k] == PatientRecordPrefix + summaries[k])
            && (forall k :: 0 <= k < |docs| ==> (IsPatientRecord(docs[k]) <==> k >= |articles|))
  {
    var docs := Corpus(articles, summaries);
    forall k | 0 <= k < |docs|
      ensures IsPatientRecord(docs[k]) <==> k >= |articles|
    {
      if k < |articles| {
        assert docs[k][0] == 'T';
      }
    }
  }

  /** The corpus of an article list and a consistent patient store is empty
      exactly when there are no articles and no patients. */
  lemma CorpusEmpty(articles: seq<Article>, ids: seq<PatientId>, records: map<PatientId, Patient>)
    requires NoDuplicates(ids) && forall id :: id in records <==> id in ids
    ensures Corpus(articles, Summaries(ids, records)) == [] <==> articles == [] && records == map[]
  {
    StoreSize(ids, records);
    assert |Corpus(articles, Summaries(ids, records))| == |articles| + |ids|;
  }

  lemma ArticleTextsStep(articles: seq<Article>, i: nat)
    requires i < |articles|
    ensures ArticleTexts(articles[..i + 1]) == ArticleTexts(articles[..i]) + [ArticleText(articles[i])]
  {
  }

  lemma CorpusStep(articles: seq<Article>, summaries: seq<string>, j: nat)
    requires j < |summaries|
    ensures Corpus(articles, summaries[..j + 1])
            == Corpus(articles, summaries[..j]) + [PatientRecordText(summaries[j])]
  {
    assert PatientRecords(summaries[..j + 1])
           == PatientRecords(summaries[..j]) + [PatientRecordText(summaries[j])];
  }

  /** The packaged response for a question, given the documents retrieved
      for the normalised question and the model's raw output. */
  function Respond(retrieved: seq<string>, raw: string): Response
  {
    Response(CleanedAnswer(raw), Sources(retrieved), CalculateConfidence(|retrieved|).Label())
  }

  /** A response carries a stripped answer no longer than the raw output,
      one excerpt per retrieved document, each at most 203 characters and
      ending in `...`, and a label that is High exactly when three or more
      documents were retrieved. */
  lemma RespondShape(retrieved: seq<string>, raw: string)
    ensures var r := Respond(retrieved, raw);
            && Stripped(r.answer) && |r.answer| <= |raw|
            && |r.sources| == |retrieved|
            && (forall k :: 0 <= k < |r.sources| ==>
                  |r.sources[k]| <= ExcerptLength + 3 && r.sources[k][|r.sources[k]| - 3..] == "...")
            && (r.confidence == "High" <==> |retrieved| >= 3)
            && (r.confidence == "Low" <==> |retrieved| <= 1)
  {
    CleanedAnswerLength(raw);
  }

  class MedicalRAG {
    const dataDir: string
    const embeddingModel: string
    const patientManager: PatientManager
    var vectorstore: Option<VectorIndex>
    var llm: Option<LanguageModel>
    var qaChain: Option<QaChain>

    /** The patient store is consistent, and a chain exists only once both
        the index and the model do. */
    ghost predicate Valid()
      reads this, patientManager
    {
      && patientManager.Valid()
      && (qaChain.Some? ==> vectorstore.Some? && llm.Some?)
    }

    /** The corpus the current article file and patient store give. */
    ghost function CurrentCorpus(articleFile: Option<seq<Article>>): seq<string>
      reads this, patientManager
      requires patientManager.Valid()
    {
      Corpus(ArticlesOf(articleFile), Summaries(patientManager.ids, patientManager.records))
    }

    /** Nothing built yet, and a patient store with no records. */
    constructor (dataDir: string)
      ensures Valid() && fresh(patientManager)
      ensures this.dataDir == dataDir && embeddingModel == EmbeddingModelName
      ensures vectorstore == None && llm == None && qaChain == None
      ensures patientManager.ids == [] && patientManager.records == map[]
      ensures patientManager.dataDir == PatientDataDir
    {
      this.dataDir := dataDir;
      embeddingModel := EmbeddingModelName;
      vectorstore := None;
      qaChain := None;
      llm := None;
      patientManager := new PatientManager(PatientDataDir);
    }

    /** Article documents first, in file order, then one patient record per
        stored patient, in insertion order. */
    method LoadDocuments(articleFile: Option<seq<Article>>) returns (documents: seq<string>)
      requires patientManager.Valid()
      ensures documents == CurrentCorpus(articleFile)
    {
      documents := [];
      if articleFile.Some? {
        var articles := articleFile.value;
        for i := 0 to |articles|
          invariant documents == ArticleTexts(articles[..i])
        {
          ArticleTextsStep(articles, i);
          documents := documents + [ArticleText(articles[i])];
        }
        assert articles[..|articles|] == articles;
      }
      assert documents == Corpus(ArticlesOf(articleFile), []);
      var summaries := patientManager.GetAllPatientSummaries();
      for j := 0 to |summaries|
        invariant documents == Corpus(ArticlesOf(articleFile), summaries[..j])
      {
        CorpusStep(ArticlesOf(articleFile), summaries, j);
        documents := documents + [PatientRecordText(summaries[j])];
      }
      assert summaries[..|summaries|] == summaries;
    }

    /** Indexes the current corpus; with no documents it fails before the
        index is replaced. */
    method CreateVectorstore(articleFile: Option<seq<Article>>) returns (outcome: Outcome<string>)
      requires Valid()
      modifies this
      ensures Valid()
      ensures llm == old(llm) && qaChain == old(qaChain)
      ensures outcome.Fail? <==> old(CurrentCorpus(articleFile)) == []
      ensures outcome.Fail? ==> outcome.error == NoDocumentsMessage && vectorstore == old(vectorstore)
      ensures outcome.Pass? ==> vectorstore == Some(VectorIndex(old(CurrentCorpus(articleFile))))
    {
      var documents := LoadDocuments(articleFile);
      if documents == [] {
        return Fail(NoDocumentsMessage);
      }
      vectorstore := Some(VectorIndex(documents));
      return Pass;
    }

    method LoadLocalLlm()
      requires Valid()
      modifies this
      ensures Valid()
      ensures llm == Some(LanguageModel(ModelName))
      ensures vectorstore == old(vectorstore) && qaChain == old(qaChain)
    {
      llm := Some(LanguageModel(ModelName));
    }

    /** Builds the index and the model only where missing, then the chain
        over them; a failed index build changes nothing. */
    method SetupQaChain(articleFile: Option<seq<Article>>) returns (outcome: Outcome<string>)
      requires Valid()
      modifies this
      ensures Valid()
      ensures outcome.Fail? <==> old(vectorstore).None? && old(CurrentCorpus(articleFile)) == []
      ensures outcome.Fail? ==>
        && outcome.error == NoDocumentsMessage
        && vectorstore == old(vectorstore) && llm == old(llm) && qaChain == old(qaChain)
      ensures outcome.Pass? ==>
        && vectorstore == (if old(vectorstore).Some? then old(vectorstore)
                           else Some(VectorIndex(old(CurrentCorpus(articleFile)))))
        && llm == (if old(llm).Some? then old(llm) else Some(LanguageModel(ModelName)))
        && qaChain == Some(QaChain(vectorstore.value, llm.value))
    {
      if vectorstore.None? {
        outcome := CreateVectorstore(articleFile);
        if outcome.Fail? {
          return;
        }
      }
      if llm.None? {
        LoadLocalLlm();
      }
      qaChain := Some(QaChain(vectorstore.value, llm.value));
      return Pass;
    }

    /** Answers a question: sets the chain up if there is none yet, then
        retrieves documents for the normalised question, generates a raw
        answer from them and packages the cleaned answer with one excerpt
        per retrieved document and the confidence label. */
    method Ask(question: string, articleFile: Option<seq<Article>>,
               retrieve: (VectorIndex, string) -> seq<string>,
               generate: (LanguageModel, string, seq<string>) -> string)
      returns (result: Result<Response, string>)
      requires Valid()
      modifies this
      ensures Valid()
      ensures old(qaChain).Some? ==>
        vectorstore == old(vectorstore) && llm == old(llm) && qaChain == old(qaChain)
      ensures result.Failure? <==>
        old(qaChain).None? && old(vectorstore).None? && old(CurrentCorpus(articleFile)) == []
      ensures result.Failure? ==>
        && result.error == NoDocumentsMessage
        && vectorstore == old(vectorstore) && llm == old(llm) && qaChain == old(qaChain)
      ensures old(qaChain).None? && result.Success? ==>
        && vectorstore == (if old(vectorstore).Some? then old(vectorstore)
                           else Some(VectorIndex(old(CurrentCorpus(articleFile)))))
        && llm == (if old(llm).Some? then old(llm) else Some(LanguageModel(ModelName)))
        && qaChain == Some(QaChain(vectorstore.value, llm.value))
      ensures result.Success? ==>
        && qaChain.Some?
        && var query := EnhanceQuery(question);
           var retrieved := retrieve(qaChain.value.index, query);
           result.value == Respond(retrieved, generate(qaChain.value.llm, query, retrieved))
    {
      if qaChain.None? {
        var outcome := SetupQaChain(articleFile);
        if outcome.Fail? {
          return Failure(outcome.error);
        }
      }
      var query := EnhanceQuery(question);
      var chain := qaChain.value;
      var retrieved := retrieve(chain.index, query);
      var raw := generate(chain.llm, query, retrieved);
      var answer := CleanAnswer(raw);
      var sources := Sources(retrieved);
      var confidence := CalculateConfidence(|retrieved|);
      return Success(Response(answer, sources, confidence.Label()));
    }
  }
}
