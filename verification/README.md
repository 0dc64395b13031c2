# Medical RAG: the orchestrator and the patient store, modelled in Dafny

This project models the hand-written logic of a local medical
question-answering system. The system has two parts.

- **The orchestrator** (`MedicalRAG`) builds the document corpus: one
  document per research article, then one document per stored patient,
  prefixed with `PATIENT RECORD:\n`. Creating the vector index always
  rebuilds it over the current corpus and refuses an empty corpus. Setting
  up the retrieval chain builds the index and the local language model only
  when they are missing, and always rebuilds the chain over them. Answering
  a question sets the chain up only when there is none yet. For each question it
  strips the question and makes it end with `?`. It then retrieves documents,
  generates a raw answer and cleans that answer: blank and repeated lines are
  dropped, and a trailing unfinished sentence is cut back to its last `.`.
  Finally it packages the answer with one excerpt per retrieved document
  (its first 200 characters, or all of a shorter text, followed by `...`)
  and a Low/Medium/High confidence label computed from the number of
  documents.
- **The patient store** (`PatientManager`) is an insertion-ordered
  dictionary from patient id to a record. A record holds a name, an age, a
  gender, a creation time and an append-only list of timestamped measurement
  sets. The store renders each patient as a fixed-layout text summary that
  shows only the latest measurement set. Those summaries feed the corpus.

Files:

- `wrappers.dfy`: `Option`, `Result` and `Outcome`.
- `sequences.dfy` (`Sequences`): the no-duplicates predicate shared by the
  store's id order and the deduplicated answer lines.
- `text.dfy` (`Text`): the Python string operations the code relies on.
  These are `str.strip`, `str.split` and `str.join` with one-character
  separators, the last index of a character, and `str(int)`.
- `patients.dfy` (`Patients`): the store as a class over a `seq` of ids and
  a `map` of records, with the summary format as functions.
- `answer.dfy` (`AnswerProcessing`): question normalisation, answer cleaning
  (a specification function and the imperative loop proved equal to it),
  confidence and excerpts.
- `rag.dfy` (`MedicalRag`): corpus assembly and the lazy-initialisation
  state machine as a class with optional fields.

The library objects are opaque values that record what they were built
from: `VectorIndex(documents)`, `LanguageModel(name)` and
`QaChain(index, llm)`. Retrieval and generation are function parameters
of `Ask`. The article file is a parameter `Option<seq<Article>>`, where
`None` means the file is absent. The current time is a parameter of the
store's update methods.

Some behaviours of the code that a reader might not expect:

- A blank question is not rejected: stripping leaves `""`, which does not
  end with `?`, so the question becomes `"?"` (`rag_system.py:255-258`).
- `ask` returns an excerpt for every retrieved document
  (`rag_system.py:241`). Only the chat UI (`app.py:51`) shows the first
  three.
- Cleaning an answer is not idempotent: cleaning the cleaned answer can
  remove more lines. `AnswerProcessing.CleanedAnswerNotIdempotent` proves
  this with a concrete input.
- Confidence depends only on the number of retrieved documents
  (`rag_system.py:305-314`).

## Model

| member | source | states |
|---|---|---|
| Text.Strip | rag_system.py:255 | the result is the input with exactly its leading and trailing whitespace (Python's `isspace` set) removed: a contiguous slice of the input, every character before and after it is whitespace, and it has no whitespace at either end |
| Text.StripFixpoint | rag_system.py:280 | stripping leaves a string unchanged exactly when it has no surrounding whitespace |
| Text.StripEmpty | rag_system.py:280-281 | a string strips to the empty string exactly when every character is whitespace |
| Text.JoinSplit | rag_system.py:274-285 | joining the pieces of a split with the same separator gives back the string |
| Text.SplitJoin | rag_system.py:285-289 | splitting a join of separator-free pieces gives back the pieces |
| Text.JoinAllButLast | rag_system.py:289-291 | joining all pieces but the last gives the string up to its last separator |
| Text.IntToStringRoundTrip | patient_manager.py:137 | the rendered age reads back as the same integer |
| Patients.PatientManager.constructor | patient_manager.py:23-33 | the store starts empty, keeps its data directory and is consistent |
| Patients.PatientManager.AddPatient | patient_manager.py:52-75 | a new id is appended to the order and gets a record with the given fields, no measurements and the given time; the result is true exactly when the id was new; a known id changes nothing |
| Patients.PatientManager.AddMeasurements | patient_manager.py:77-98 | for a known id, exactly one measurement set with the given time goes at the end of that patient's list and nothing else changes; an unknown id gives false and changes nothing |
| Patients.PatientManager.GetPatient | patient_manager.py:100-110 | returns the stored record exactly when the id is known, and changes nothing |
| Patients.PatientManager.GetAllPatients | patient_manager.py:112-119 | returns the whole store, with ids in insertion order, unchanged |
| Patients.PatientManager.GetPatientSummary | patient_manager.py:121-147 | None exactly for an unknown id; otherwise the loop-built text equals the summary format |
| Patients.PatientManager.GetAllPatientSummaries | patient_manager.py:149-161 | one summary per stored patient in insertion order, as many as there are patients |
| Patients.SummaryShape | patient_manager.py:135-145 | a summary starts with the id/name/age/gender header; it is just the header exactly when there are no measurements, and otherwise continues with the latest-measurement section |
| Patients.SummaryShowsOnlyLatest | patient_manager.py:140-145 | two patients that differ only in earlier measurement sets have the same summary |
| Patients.ReadingLinesSplit | patient_manager.py:144-145 | the rendered readings are one `- key: value` line per reading, in insertion order |
| Patients.SummariesStep | patient_manager.py:158-160 | a stored patient's summary is never empty, so the `if summary` test always passes |
| AnswerProcessing.EnhanceQuery | rag_system.py:245-258 | the result ends with `?`, starts with the stripped question and is at most one character longer; a stripped question that already ends with `?` is returned unchanged (so no second `?` is added) |
| AnswerProcessing.EnhanceQueryIdempotent | rag_system.py:254-258 | normalising a normalised question changes nothing |
| AnswerProcessing.FirstOccurrencesMembers | rag_system.py:279-283 | a line survives deduplication exactly when it is non-empty and occurs in the stripped input |
| AnswerProcessing.FirstOccurrencesNoDuplicates | rag_system.py:279-283 | no line survives twice |
| AnswerProcessing.FirstOccurrencesSubsequence | rag_system.py:279-283 | the surviving lines keep their input order (a subsequence of the stripped lines) |
| AnswerProcessing.FirstOccurrencesPrefix | rag_system.py:279-283 | deduplicating a prefix of the lines gives a prefix of the result: each line is kept at its first occurrence |
| AnswerProcessing.DedupedLines | rag_system.py:274-285 | after deduplication every line is non-empty and stripped, no two are equal, and they are a subsequence of the stripped input lines |
| AnswerProcessing.DedupedTextStripped | rag_system.py:285 | the joined deduplicated text has no surrounding whitespace |
| AnswerProcessing.DedupedTextEmpty | rag_system.py:274-285 | the deduplicated text is empty exactly when every input line is blank |
| AnswerProcessing.DropKeepsComplete | rag_system.py:288-291 | an empty text, one that ends in `.`, `!` or `?`, or one with no `.` is not cut |
| AnswerProcessing.DropCutsIncomplete | rag_system.py:288-291 | a text that ends mid-sentence and holds a `.` is cut just after its last `.` |
| AnswerProcessing.CleanCompleteText | rag_system.py:288-293 | a stripped text that needs no cut comes out of the cut-and-strip unchanged |
| AnswerProcessing.CleanIncompleteText | rag_system.py:288-293 | a stripped text that ends mid-sentence comes out as its prefix through the last `.` |
| AnswerProcessing.CleanedAnswerKeepsComplete | rag_system.py:285-293 | when the deduplicated text needs no cut, the cleaned answer is that text |
| AnswerProcessing.CleanedAnswerCutsIncomplete | rag_system.py:285-293 | when the deduplicated text ends mid-sentence and holds a `.`, the cleaned answer is its prefix through the last `.` and ends with `.` |
| AnswerProcessing.CleanedAnswerEmptyText | rag_system.py:285-293 | cleaning empties the answer exactly when deduplication did |
| AnswerProcessing.CleanedAnswerEmpty | rag_system.py:274-293 | the cleaned answer is empty exactly when every input line is blank |
| AnswerProcessing.CleanedAnswerBlank | rag_system.py:274-293 | an empty or whitespace-only answer cleans to the empty string |
| AnswerProcessing.CleanedAnswerLength | rag_system.py:274-293 | cleaning never makes an answer longer |
| AnswerProcessing.CleanedAnswer | rag_system.py:293 | the cleaned answer has no surrounding whitespace |
| AnswerProcessing.CleanedFirstPass | rag_system.py:274-293 | one pass cleans `"x.\nx. y"` to `"x.\nx."` |
| AnswerProcessing.CleanedSecondPass | rag_system.py:274-293 | one pass cleans `"x.\nx."` to `"x."` |
| AnswerProcessing.CleanedAnswerNotIdempotent | rag_system.py:260-293 | cleaning twice can differ from cleaning once |
| AnswerProcessing.CleanAnswer | rag_system.py:260-293 | the loop with its `seen` set computes exactly the cleaned answer |
| AnswerProcessing.CalculateConfidence | rag_system.py:295-314 | Low for 0 or 1 sources, Medium for 2, High for 3 or more, each as an if-and-only-if |
| AnswerProcessing.ConfidenceMonotone | rag_system.py:305-314 | more sources never give a lower confidence |
| AnswerProcessing.Excerpt | rag_system.py:241 | the first 200 characters (all of a shorter text) followed by `...` |
| AnswerProcessing.Sources | rag_system.py:241 | one excerpt per retrieved document, in retrieval order |
| MedicalRag.CorpusLayout | rag_system.py:57-77 | one document per article in file order, then one `PATIENT RECORD:` document per summary in store order; a document is a patient record exactly when it comes after all articles |
| MedicalRag.CorpusEmpty | rag_system.py:89-92 | there are no documents exactly when there are no articles and no patients |
| MedicalRag.RespondShape | rag_system.py:237-243 | the packaged answer is stripped and no longer than the raw output; there is one excerpt per retrieved document, each ending in `...` and at most 203 characters; the label is High exactly for 3 or more documents and Low exactly for at most 1 |
| MedicalRag.MedicalRAG.constructor | rag_system.py:34-48 | nothing is built, and a fresh, empty patient store is attached |
| MedicalRag.MedicalRAG.LoadDocuments | rag_system.py:50-77 | the two append loops produce exactly the corpus of the article file and the current patient summaries |
| MedicalRag.MedicalRAG.CreateVectorstore | rag_system.py:79-111 | it fails with the "No documents found" message exactly when the corpus is empty, and then leaves the old index untouched; otherwise the index is over the corpus; the model and chain are unchanged |
| MedicalRag.MedicalRAG.LoadLocalLlm | rag_system.py:113-154 | sets the model to the TinyLlama chat model and changes nothing else |
| MedicalRag.MedicalRAG.SetupQaChain | rag_system.py:156-212 | an existing index or model is kept and a missing one is built; the chain is then over the current index and model; it fails, changing nothing, exactly when no index exists and the corpus is empty |
| MedicalRag.MedicalRAG.Ask | rag_system.py:214-243 | setup runs only when there is no chain, and a present chain leaves all three fields unchanged; it fails exactly when setup fails; a successful first call leaves the existing index and model or builds them (the index over the current corpus, the TinyLlama model) and sets the chain over them; otherwise the result is the packaged response for the documents the chain's index retrieves for the normalised question and the model's output for them |

## Left out

- Text splitting into chunks, embeddings, the Chroma store and MMR
  retrieval (`rag_system.py:94-109`, `197-204`). These are library code that
  is not part of this model. The index is the opaque
  `VectorIndex(documents)`, and retrieval is the `retrieve` parameter of
  `Ask`. The embedding model is recorded only by its name
  (`MedicalRag.EmbeddingModelName`); the persist directory `./chroma_db`
  (`rag_system.py:108`) is not modelled. Every build is taken to give a
  fresh `VectorIndex` over the current corpus. Whether a second build into
  the same directory replaces the stored collection or adds to it is
  library behaviour that this model does not capture.
- Model loading and text generation (`rag_system.py:127-153`): torch and
  transformers, floating-point generation parameters and sampled decoding.
  The model is `LanguageModel(name)`, and generation is the `generate`
  parameter of `Ask`.
- Filling the prompt template and running the `RetrievalQA` chain
  (`rag_system.py:173-212`). The model passes the normalised question and
  the retrieved documents to `generate`. The template text is not modelled.
- JSON file I/O. `load_patients` and `save_patients` (`patient_manager.py:35-50`)
  and `os.makedirs` are not modelled: a new store starts empty and saving
  is a no-op. Reading the article file (`rag_system.py:60-63`) is
  replaced by the `articleFile` parameter.
- `datetime.now().isoformat()`: it is the `now` parameter of `AddPatient`
  and `AddMeasurements`.
- Patients.PatientManager.GetPatient: returns a copy of the record, whereas
  the source returns the stored dictionary itself, which callers could
  mutate. Aliasing of returned records is not modelled.
- Patients.PatientManager.GetAllPatients: returns the records and the id
  order as values, whereas the source returns the stored dictionary itself
  (`patient_manager.py:119`), which callers could mutate. Aliasing is not
  modelled.
- Patients.PatientManager.AddMeasurements: the measurement dictionary is a
  sequence of (name, value) pairs with distinct names in insertion order.
  Values are strings, as the signature declares. The source stores the
  caller's own dictionary rather than a copy (`patient_manager.py:93`), so
  later changes by the caller would show in the store; that aliasing is not
  modelled.
- Exceptions raised inside library calls (embedding, generation) are not
  modelled. Only the "No documents found" `ValueError` is modelled, as a
  `Fail` or `Failure` value.
- `data_collector.py`, `app.py` and `patient_demo.py` are not part of this
  model. They hold network fetching, the web UI and a demo script.
