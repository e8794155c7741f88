/** The two stores of the note service together, rows and files, as one map from id to note, and what
    each change of both does to that map. */
module NoteStore {
  import opened Strings
  import opened Rows
  import opened OrderBy
  import opened Paths
  import opened NotePaths
  import opened Disk
  import opened Notes

  /** Every file is some note's. */
  ghost predicate NoOrphans(notes: map<string, NoteRow>, files: Files) {
    forall p | p in files :: exists id :: id in notes && KeyOf(notes[id]) == p
  }

  /** Rows and files agree: each row is well formed, has its file and that file's preview, and there
      are no other files. */
  ghost predicate Consistent(notes: map<string, NoteRow>, files: Files) {
    RowsOk(notes) && InStep(notes, files)
  }

  ghost predicate InStep(notes: map<string, NoteRow>, files: Files) {
    EveryRowHasFile(notes, files) && PreviewsMatch(notes, files) && NoOrphans(notes, files)
  }

  /** No two notes share a file. */
  lemma KeysDiffer(notes: map<string, NoteRow>, a: string, b: string)
    requires RowsOk(notes) && a in notes && b in notes && a != b
    ensures KeyOf(notes[a]) != KeyOf(notes[b])
  {
    var x, y := notes[a], notes[b];
    NoteKeyInjective(x.parentDir, x.title, x.id, y.parentDir, y.title, y.id);
  }

  /** One file per note. */
  lemma OneFilePerNote(notes: map<string, NoteRow>, files: Files)
    requires Consistent(notes, files)
    ensures |files| == |notes|
  {
    var keys := map id | id in notes :: KeyOf(notes[id]);
    forall a, b | a in notes && b in notes && a != b ensures keys[a] != keys[b] { KeysDiffer(notes, a, b); }
    KeysCount(keys, notes, files);
  }

  lemma KeysCount(keys: map<string, Path>, notes: map<string, NoteRow>, files: Files)
    requires keys.Keys == notes.Keys && forall id | id in notes :: keys[id] == KeyOf(notes[id])
    requires forall a, b | a in notes && b in notes && a != b :: keys[a] != keys[b]
    requires EveryRowHasFile(notes, files) && NoOrphans(notes, files)
    ensures |files| == |notes|
  {
    InjectiveImage(keys);
    forall p ensures p in keys.Values <==> p in files {
      if p in files { var id :| id in notes && KeyOf(notes[id]) == p; assert keys[id] == p; }
    }
    assert keys.Values == files.Keys;
    assert |files| == |files.Keys| && |notes| == |notes.Keys|;
  }

  /** A row and its file are stored: the map gains this note. */
  lemma ViewPut(notes: map<string, NoteRow>, files: Files, row: NoteRow, files': Files)
    requires SameElsewhere(notes, row.id, files', files) && KeyOf(row) in files'
    ensures View(notes[row.id := row], files')
        == View(notes, files)[row.id := Note(row.parentDir, row.title, files'[KeyOf(row)])]
  {
    var notes' := notes[row.id := row];
    var v, v' := View(notes, files), View(notes', files');
    forall id | id != row.id ensures (id in v' <==> id in v) && (id in v ==> v'[id] == v[id]) {
      if id in notes { ShownElsewhere(notes, files, row, files', id); }
    }
    PutOne(v, v', row.id, Note(row.parentDir, row.title, files'[KeyOf(row)]));
  }

  lemma ShownElsewhere(notes: map<string, NoteRow>, files: Files, row: NoteRow, files': Files, id: string)
    requires SameElsewhere(notes, row.id, files', files) && id in notes && id != row.id
    ensures notes[row.id := row][id] == notes[id]
    ensures var k := KeyOf(notes[id]); (k in files' <==> k in files) && (k in files ==> files'[k] == files[k])
  {}

  lemma PutOne<K(!new), V(!new)>(m: map<K, V>, m': map<K, V>, k: K, v: V)
    requires k in m' && m'[k] == v
    requires forall j | j != k :: (j in m' <==> j in m) && (j in m ==> m'[j] == m[j])
    ensures m' == m[k := v]
  {
    assert m'.Keys == m[k := v].Keys;
  }

  lemma ViewDrop(notes: map<string, NoteRow>, files: Files, id: string, files': Files)
    requires SameElsewhere(notes, id, files', files)
    ensures View(notes - {id}, files') == View(notes, files) - {id}
  {
    forall other | other in notes && other != id
      ensures KeyOf(notes[other]) in files' <==> KeyOf(notes[other]) in files
    {}
  }

  lemma PutInStep(notes: map<string, NoteRow>, files: Files, row: NoteRow, files': Files, gone: set<Path>)
    requires InStep(notes, files) && SameElsewhere(notes, row.id, files', files)
    requires KeyOf(row) in files' && row.preview == Preview(files'[KeyOf(row)])
    requires files'.Keys == files.Keys - gone + {KeyOf(row)}
    requires row.id in notes ==> KeyOf(notes[row.id]) in gone
    ensures InStep(notes[row.id := row], files')
  {
    var notes' := notes[row.id := row];
    forall p | p in files' ensures exists id :: id in notes' && KeyOf(notes'[id]) == p {
      if p == KeyOf(row) { assert notes'[row.id] == row; }
      else { var id :| id in notes && KeyOf(notes[id]) == p; assert notes'[id] == notes[id]; }
    }
    forall id | id in notes'
      ensures KeyOf(notes'[id]) in files' && IsPreview(notes'[id].preview, files'[KeyOf(notes'[id])])
    {
      assert id != row.id ==> notes'[id] == notes[id];
    }
  }

  lemma CreateConsistent(notes: map<string, NoteRow>, files: Files, row: NoteRow, content: string)
    requires Consistent(notes, files) && RowOk(row) && row.id !in notes && row.preview == Preview(content)
    requires SameElsewhere(notes, row.id, files[KeyOf(row) := content], files)
    ensures Consistent(notes[row.id := row], files[KeyOf(row) := content])
    ensures View(notes[row.id := row], files[KeyOf(row) := content])
        == View(notes, files)[row.id := Note(row.parentDir, row.title, content)]
  {
    RowsOkPut(notes, row);
    ViewPut(notes, files, row, files[KeyOf(row) := content]);
    PutInStep(notes, files, row, files[KeyOf(row) := content], {});
  }

  lemma UpdateConsistent(notes: map<string, NoteRow>, files: Files, row: NoteRow, content: string)
    requires Consistent(notes, files) && RowOk(row) && row.id in notes && row.preview == Preview(content)
    requires SameElsewhere(notes, row.id, (files - {KeyOf(notes[row.id])})[KeyOf(row) := content], files)
    ensures var files' := (files - {KeyOf(notes[row.id])})[KeyOf(row) := content];
      && Consistent(notes[row.id := row], files')
      && View(notes[row.id := row], files') == View(notes, files)[row.id := Note(row.parentDir, row.title, content)]
  {
    var gone := KeyOf(notes[row.id]);
    RowsOkPut(notes, row);
    ViewPut(notes, files, row, (files - {gone})[KeyOf(row) := content]);
    PutInStep(notes, files, row, (files - {gone})[KeyOf(row) := content], {gone});
  }

  lemma DropInStep(notes: map<string, NoteRow>, files: Files, id: string)
    requires InStep(notes, files) && id in notes && SameElsewhere(notes, id, files - {KeyOf(notes[id])}, files)
    ensures InStep(notes - {id}, files - {KeyOf(notes[id])})
  {
    var notes', files' := notes - {id}, files - {KeyOf(notes[id])};
    forall p | p in files' ensures exists other :: other in notes' && KeyOf(notes'[other]) == p {
      var other :| other in notes && KeyOf(notes[other]) == p;
      assert other in notes';
    }
    forall other | other in notes' ensures KeyOf(notes'[other]) in files' { assert notes'[other] == notes[other]; }
  }

  lemma DeleteConsistent(notes: map<string, NoteRow>, files: Files, id: string)
    requires Consistent(notes, files) && id in notes
    requires SameElsewhere(notes, id, files - {KeyOf(notes[id])}, files)
    ensures Consistent(notes - {id}, files - {KeyOf(notes[id])})
    ensures View(notes - {id}, files - {KeyOf(notes[id])}) == View(notes, files) - {id}
  {
    ViewDrop(notes, files, id, files - {KeyOf(notes[id])});
    DropInStep(notes, files, id);
    RowsOkDrop(notes, id);
  }

  lemma RowsOkDrop(notes: map<string, NoteRow>, id: string)
    requires RowsOk(notes)
    ensures RowsOk(notes - {id})
  {}
}
