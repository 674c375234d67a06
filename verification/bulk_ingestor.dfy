/**
 * The incremental manifest update of `BulkIngestor.ingest`: for every scanned
 * document, skip it when its hash matches the stored one, otherwise record a
 * fresh entry with its category, extracted text and any extraction error.
 * Hashing, copying, text extraction and the manifest file are the
 * environment, given as functions and values.
 */
module BulkIngestor {
  import opened Results
  import opened Text
  import opened OrderedMaps
  import opened Seqs

  /**
   * One manifest entry. A manifest read back from disk may lack any key, so
   * every field is optional; `extract_error` is present only when extraction
   * failed.
   */
  datatype ManifestEntry = ManifestEntry(
    hash: Option<string>,
    dest: Option<string>,
    category: Option<string>,
    text: Option<string>,
    size: Option<nat>,
    extractError: Option<string>)

  /** The manifest: relative path to entry, in insertion order. */
  type Manifest = OrderedMap<string, ManifestEntry>

  /** What reading the stored manifest file gave. */
  datatype StoredManifest =
    | NoFile                    // the manifest path does not exist
    | Unreadable                // `json.JSONDecodeError` or `OSError` while loading
    | NotUtf8                   // bytes that are not UTF-8: `UnicodeDecodeError`
    | Loaded(manifest: Manifest)

  /** An exception that escapes `ingest`. */
  datatype IngestError = UnicodeDecodeError

  /** A loaded manifest is a dict: each key once. */
  ghost predicate WellFormed(stored: StoredManifest) {
    stored.Loaded? ==> stored.manifest.Valid()
  }

  /**
   * The manifest the update starts from: the stored one, or `{}` when there is
   * none or it raised one of the two caught exceptions. `UnicodeDecodeError`
   * is a `ValueError` but neither of those, so it escapes.
   */
  function LoadManifest(stored: StoredManifest): (r: Result<Manifest, IngestError>)
    requires WellFormed(stored)
    ensures r.Err? <==> stored.NotUtf8?
    ensures r.Ok? ==> r.value.Valid()
    ensures stored.Loaded? ==> r == Ok(stored.manifest)
    ensures stored.NoFile? || stored.Unreadable? ==> r.Ok? && r.value.keys == [] && r.value.values == map[]
  {
    match stored
    case Loaded(m) => Ok(m)
    case NotUtf8 => Err(UnicodeDecodeError)
    case _ => Ok(Empty())
  }

  /** The outcome of extracting a document's text. */
  datatype Extraction =
    | Extracted(text: string)
    | AccessError(message: string)   // `FileNotFoundError` or `PermissionError`
    | FormatError(message: string)   // `ValueError`
    | OtherError(message: string)    // any other exception

  /** The environment of a run: each relative path's hash, size and extraction outcome. */
  datatype Source = Source(
    hashOf: string -> string,
    sizeOf: string -> nat,
    extract: string -> Extraction)

  /** The text recorded for an extraction: the text, or `""` when it failed. */
  function TextOf(x: Extraction): string {
    if x.Extracted? then x.text else ""
  }

  /** The recorded `extract_error`: the failure's message behind a prefix naming the failure's class. */
  function ExtractErrorOf(x: Extraction): (r: Option<string>)
    ensures r.None? <==> x.Extracted?
    ensures x.AccessError? ==> r == Some("File access error: " + x.message)
    ensures x.FormatError? ==> r == Some("Unsupported format: " + x.message)
    ensures x.OtherError? ==> r == Some("Extraction error: " + x.message)
  {
    match x
    case Extracted(_) => None
    case AccessError(msg) => Some("File access error: " + msg)
    case FormatError(msg) => Some("Unsupported format: " + msg)
    case OtherError(msg) => Some("Extraction error: " + msg)
  }

  /**
   * The category of a document: its top-level folder when the relative path
   * has more than one component, `"Uncategorized"` otherwise. Paths use `/`
   * between components.
   */
  function CategoryOf(relPath: string): string {
    var parts := Split(relPath, '/');
    if |parts| > 1 then parts[0] else "Uncategorized"
  }

  /** A document inside a folder is filed under that top-level folder. */
  lemma CategoryIsTopFolder(folder: string, rest: string)
    requires '/' !in folder
    ensures CategoryOf(folder + "/" + rest) == folder
  {
    var parts := [folder] + Split(rest, '/');
    JoinAppend([folder], Split(rest, '/'), '/');
    JoinSplit(rest, '/');
    assert Join(parts, '/') == folder + "/" + rest;
    assert forall k :: 0 <= k < |parts| ==> '/' !in parts[k] by {
      forall k | 0 <= k < |parts| ensures '/' !in parts[k] {
        if k > 0 {
          assert parts[k] == Split(rest, '/')[k - 1];
        }
      }
    }
    SplitJoin(parts, '/');
  }

  /** A document at the top level is filed under `"Uncategorized"`. */
  lemma TopLevelUncategorized(relPath: string)
    requires '/' !in relPath
    ensures CategoryOf(relPath) == "Uncategorized"
  {
    SplitWithoutSep(relPath, '/');
  }

  /** The entry recorded for a new or changed document. */
  function NewEntry(relPath: string, src: Source, docsDir: string): (e: ManifestEntry)
    ensures e.hash == Some(src.hashOf(relPath))
    ensures e.dest == Some(docsDir + "/" + relPath)
    ensures e.category == Some(CategoryOf(relPath))
    ensures e.size == Some(src.sizeOf(relPath))
    ensures src.extract(relPath).Extracted? ==> e.text == Some(src.extract(relPath).text) && e.extractError.None?
    ensures !src.extract(relPath).Extracted? ==> e.text == Some("") && e.extractError.Some?
  {
    var x := src.extract(relPath);
    ManifestEntry(Some(src.hashOf(relPath)), Some(docsDir + "/" + relPath), Some(CategoryOf(relPath)),
                  Some(TextOf(x)), Some(src.sizeOf(relPath)), ExtractErrorOf(x))
  }

  /** `manifest.get(rel_str, {}).get("hash") == file_hash`. */
  predicate Unchanged(m: Manifest, relPath: string, hash: string) {
    relPath in m.values && m.values[relPath].hash == Some(hash)
  }

  /** `relPath` is one of the scanned documents. */
  predicate Scanned(files: seq<string>, relPath: string) {
    exists i :: 0 <= i < |files| && files[i] == relPath
  }

  /** One document of the loop: skipped when unchanged, otherwise its entry is (re)written. */
  function IngestOne(m: Manifest, relPath: string, src: Source, docsDir: string): (r: Manifest)
    requires m.Valid()
    ensures r.Valid()
    ensures Unchanged(m, relPath, src.hashOf(relPath)) ==> r == m
    ensures !Unchanged(m, relPath, src.hashOf(relPath)) ==> r == Put(m, relPath, NewEntry(relPath, src, docsDir))
    ensures |m.keys| <= |r.keys| && r.keys[..|m.keys|] == m.keys
    ensures forall k :: k in r.values <==> k in m.values || k == relPath
    ensures forall k :: k in m.values && k != relPath ==> r.values[k] == m.values[k]
  {
    if Unchanged(m, relPath, src.hashOf(relPath)) then m
    else Put(m, relPath, NewEntry(relPath, src, docsDir))
  }

  /**
   * The loop over the scanned documents. Nothing is ever removed: keys keep
   * their positions and values unless scanned, new keys follow in scan order,
   * and every scanned document ends up with an entry.
   */
  function IngestFiles(m: Manifest, files: seq<string>, src: Source, docsDir: string): (r: Manifest)
    requires m.Valid()
    ensures r.Valid()
    ensures |m.keys| <= |r.keys| && r.keys[..|m.keys|] == m.keys
    ensures forall k :: k in r.values <==> k in m.values || Scanned(files, k)
    ensures forall k :: k in m.values && !Scanned(files, k) ==> r.values[k] == m.values[k]
    decreases |files|
  {
    if files == [] then m
    else
      var m' := IngestOne(m, files[0], src, docsDir);
      var r := IngestFiles(m', files[1..], src, docsDir);
      ScannedCons(files);
      PrefixOfPrefix(m.keys, m'.keys, r.keys);
      r
  }

  /** The scanned documents not in `known`, each once, in the order they were scanned. */
  function NewPaths(known: set<string>, files: seq<string>): (r: seq<string>)
    ensures forall i :: 0 <= i < |r| ==> r[i] !in known
    ensures forall i, j :: 0 <= i < j < |r| ==> r[i] != r[j]
    decreases |files|
  {
    if files == [] then []
    else if files[0] in known then NewPaths(known, files[1..])
    else [files[0]] + NewPaths(known + {files[0]}, files[1..])
  }

  /** One step of the loop. */
  lemma IngestFilesStep(m: Manifest, files: seq<string>, src: Source, docsDir: string)
    requires m.Valid() && files != []
    ensures IngestFiles(m, files, src, docsDir) == IngestFiles(IngestOne(m, files[0], src, docsDir), files[1..], src, docsDir)
  {
  }

  /** One document appends its path exactly when it had no entry. */
  lemma IngestOneKeys(m: Manifest, relPath: string, src: Source, docsDir: string)
    requires m.Valid()
    ensures IngestOne(m, relPath, src, docsDir).keys == m.keys + (if relPath in m.values then [] else [relPath])
    ensures IngestOne(m, relPath, src, docsDir).values.Keys == m.values.Keys + {relPath}
  {
    if relPath in m.values {
      assert m.keys + [] == m.keys;
    }
  }

  /** The scanned documents not yet known, split at the first one. */
  lemma NewPathsCons(known: set<string>, files: seq<string>)
    requires files != []
    ensures NewPaths(known, files)
            == (if files[0] in known then [] else [files[0]]) + NewPaths(known + {files[0]}, files[1..])
  {
    if files[0] in known {
      assert known + {files[0]} == known;
    }
  }

  /** The loop appends the documents that had no entry, in scan order, after the keys already there. */
  lemma {:induction false} IngestFilesAppends(m: Manifest, files: seq<string>, src: Source, docsDir: string)
    requires m.Valid()
    ensures IngestFiles(m, files, src, docsDir).keys == m.keys + NewPaths(m.values.Keys, files)
    decreases |files|
  {
    if files != [] {
      var f := files[0];
      var m' := IngestOne(m, f, src, docsDir);
      var front := if f in m.values then [] else [f];
      IngestFilesStep(m, files, src, docsDir);
      IngestOneKeys(m, f, src, docsDir);
      IngestFilesAppends(m', files[1..], src, docsDir);
      NewPathsCons(m.values.Keys, files);
      var rest := NewPaths(m.values.Keys + {f}, files[1..]);
      AppendAssoc(m.keys, front, rest);
      calc {
        IngestFiles(m, files, src, docsDir).keys;
        m'.keys + NewPaths(m'.values.Keys, files[1..]);
        m.keys + front + rest;
        m.keys + (front + rest);
        m.keys + NewPaths(m.values.Keys, files);
      }
    }
  }

  /** Splitting the scanned documents at the first one. */
  lemma ScannedCons(files: seq<string>)
    requires files != []
    ensures forall k :: Scanned(files, k) <==> k == files[0] || Scanned(files[1..], k)
  {
    forall k | Scanned(files[1..], k) ensures Scanned(files, k) {
      var i :| 0 <= i < |files[1..]| && files[1..][i] == k;
      assert files[i + 1] == k;
    }
    forall k | Scanned(files, k) && k != files[0] ensures Scanned(files[1..], k) {
      var i :| 0 <= i < |files| && files[i] == k;
      assert files[1..][i - 1] == k;
    }
  }

  /**
   * The entry a scanned document ends with: the stored entry when the stored
   * hash matched, a fresh entry otherwise. A document scanned twice is
   * written at most once, since the second visit sees the new hash.
   */
  lemma {:induction false} IngestedEntry(m: Manifest, files: seq<string>, src: Source, docsDir: string, relPath: string)
    requires m.Valid() && Scanned(files, relPath)
    ensures relPath in IngestFiles(m, files, src, docsDir).values
    ensures IngestFiles(m, files, src, docsDir).values[relPath]
            == if Unchanged(m, relPath, src.hashOf(relPath)) then m.values[relPath] else NewEntry(relPath, src, docsDir)
    decreases |files|
  {
    var m' := IngestOne(m, files[0], src, docsDir);
    var expected := if Unchanged(m, relPath, src.hashOf(relPath)) then m.values[relPath] else NewEntry(relPath, src, docsDir);
    if files[0] == relPath {
      assert relPath in m'.values && m'.values[relPath] == expected;
      assert Unchanged(m', relPath, src.hashOf(relPath));
    } else {
      assert relPath in m.values ==> relPath in m'.values && m'.values[relPath] == m.values[relPath];
      assert Unchanged(m', relPath, src.hashOf(relPath)) <==> Unchanged(m, relPath, src.hashOf(relPath));
      var i :| 0 <= i < |files| && files[i] == relPath;
      assert files[1..][i - 1] == relPath;
    }
    if Scanned(files[1..], relPath) {
      IngestedEntry(m', files[1..], src, docsDir, relPath);
    }
  }

  /** `ingest`: load the stored manifest (or start empty) and run the loop over the scanned documents. */
  function Ingest(stored: StoredManifest, files: seq<string>, src: Source, docsDir: string): (r: Result<Manifest, IngestError>)
    requires WellFormed(stored)
    ensures r.Err? <==> stored.NotUtf8?
    ensures r.Ok? ==> r.value.Valid()
    ensures r.Ok? ==> forall i :: 0 <= i < |files| ==> files[i] in r.value.values
  {
    match LoadManifest(stored)
    case Err(e) => Err(e)
    case Ok(m) =>
      assert forall i :: 0 <= i < |files| ==> Scanned(files, files[i]);
      Ok(IngestFiles(m, files, src, docsDir))
  }

  /** A missing and an unreadable manifest lead to the same result, holding exactly the scanned documents, each with a fresh entry. */
  lemma UnreadableManifestTreatedAsEmpty(files: seq<string>, src: Source, docsDir: string, relPath: string)
    ensures Ingest(Unreadable, files, src, docsDir) == Ingest(NoFile, files, src, docsDir)
    ensures Ingest(NoFile, files, src, docsDir).Ok?
    ensures relPath in Ingest(NoFile, files, src, docsDir).value.values <==> Scanned(files, relPath)
    ensures Scanned(files, relPath) ==> Ingest(NoFile, files, src, docsDir).value.values[relPath] == NewEntry(relPath, src, docsDir)
  {
    if Scanned(files, relPath) {
      IngestedEntry(Empty(), files, src, docsDir, relPath);
    }
  }

  /** Running the update twice over the same documents changes nothing the second time. */
  lemma {:induction false} IngestAgainUnchanged(m: Manifest, files: seq<string>, src: Source, docsDir: string)
    requires m.Valid()
    ensures IngestFiles(IngestFiles(m, files, src, docsDir), files, src, docsDir) == IngestFiles(m, files, src, docsDir)
  {
    var r := IngestFiles(m, files, src, docsDir);
    forall k | Scanned(files, k) ensures Unchanged(r, k, src.hashOf(k)) {
      IngestedEntry(m, files, src, docsDir, k);
    }
    AllUnchangedIsIdentity(r, files, src, docsDir);
  }

  /** When every scanned document is unchanged, the loop leaves the manifest as it is. */
  lemma {:induction false} AllUnchangedIsIdentity(m: Manifest, files: seq<string>, src: Source, docsDir: string)
    requires m.Valid()
    requires forall k :: Scanned(files, k) ==> Unchanged(m, k, src.hashOf(k))
    ensures IngestFiles(m, files, src, docsDir) == m
    decreases |files|
  {
    if files != [] {
      assert Scanned(files, files[0]);
      forall k | Scanned(files[1..], k) ensures Unchanged(m, k, src.hashOf(k)) {
        var i :| 0 <= i < |files[1..]| && files[1..][i] == k;
        assert files[i + 1] == k;
      }
      AllUnchangedIsIdentity(m, files[1..], src, docsDir);
    }
  }
}
