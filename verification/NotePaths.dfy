/** `NotePath`, the key that links a note's row to its file. */
module NotePaths {
  import opened Strings
  import opened Paths

  predicate IsHex(c: char) { '0' <= c <= '9' || 'a' <= c <= 'f' }

  /** `ValidateUuidV4`: a lower-case version 4 UUID in its text form (section 4 of RFC 9562). */
  predicate IsUuidV4(id: string) {
    && |id| == 36
    && (forall k | 0 <= k < 36 :: if k in {8, 13, 18, 23} then id[k] == '-' else IsHex(id[k]))
    && id[14] == '4'
    && id[19] in {'8', '9', 'a', 'b'}
  }

  /** The id consists of five groups of lower-case hexadecimal digits, the third beginning with the version,
      4, and the fourth with the variant. */
  ghost predicate UuidGroups(id: string, a: string, b: string, c: string, d: string, e: string) {
    && id == a + "-" + b + "-4" + c + "-" + d + "-" + e
    && |a| == 8 && |b| == 4 && |c| == 3 && |d| == 4 && |e| == 12
    && d[0] in {'8', '9', 'a', 'b'}
    && forall x | x in a + b + c + d + e :: '0' <= x <= '9' || 'a' <= x <= 'f'
  }

  lemma UuidIff(id: string)
    ensures IsUuidV4(id) <==> exists a, b, c, d, e :: UuidGroups(id, a, b, c, d, e)
  {
    if IsUuidV4(id) { UuidHasGroups(id); }
    if a, b, c, d, e :| UuidGroups(id, a, b, c, d, e) { GroupsAreUuid(id, a, b, c, d, e); }
  }

  lemma UuidHasGroups(id: string)
    requires IsUuidV4(id)
    ensures UuidGroups(id, id[..8], id[9..13], id[15..18], id[19..23], id[24..])
  {
    var a, b, c, d, e := id[..8], id[9..13], id[15..18], id[19..23], id[24..];
    assert id[8] == '-' && id[13] == '-' && id[14] == '4' && id[18] == '-' && id[23] == '-';
    assert id == a + "-" + b + "-4" + c + "-" + d + "-" + e;
    forall x | x in a + b + c + d + e ensures IsHex(x) {
      assert x in a || x in b || x in c || x in d || x in e;
      assert forall k | 0 <= k < 36 && k !in {8, 13, 18, 23} :: IsHex(id[k]);
    }
  }

  lemma GroupsAreUuid(id: string, a: string, b: string, c: string, d: string, e: string)
    requires UuidGroups(id, a, b, c, d, e)
    ensures IsUuidV4(id)
  {
    var digits := a + b + c + d + e;
    assert id[19] == d[0];
    forall k | 0 <= k < 36 ensures if k in {8, 13, 18, 23} then id[k] == '-' else IsHex(id[k]) {
      if k < 8 { assert id[k] == a[k] && digits[k] in digits; }
      else if 8 < k < 13 { assert id[k] == b[k - 9] == digits[k - 1] && digits[k - 1] in digits; }
      else if 14 < k < 18 { assert id[k] == c[k - 15] == digits[k - 3] && digits[k - 3] in digits; }
      else if 18 < k < 23 { assert id[k] == d[k - 19] == digits[k - 4] && digits[k - 4] in digits; }
      else if 23 < k { assert id[k] == e[k - 24] == digits[k - 5] && digits[k - 5] in digits; }
    }
  }

  function NoteFile(title: string, id: string): string { title + "_" + id + ".md" }

  /** `NotePath`. */
  function NotePath(parentDir: string, title: string, id: string): string {
    if parentDir == "" then NoteFile(title, id) else parentDir + "/" + NoteFile(title, id)
  }

  datatype NoteName = NoteName(parentDir: string, title: string, id: string)

  /** Reads directory, title and id back from a path, from the right: ".md", 36 characters, "_". */
  function ParseNotePath(path: string): (r: Option<NoteName>) {
    var cs := Split(path);
    var file := cs[|cs| - 1];
    if |file| < 40 then None
    else
      var cut := |file| - 40;
      Some(NoteName(Join(cs[..|cs| - 1]), file[..cut], file[cut + 1..cut + 37]))
  }

  lemma NoteFileNoSlash(title: string, id: string)
    requires NoSlash(title) && IsUuidV4(id)
    ensures NoSlash(NoteFile(title, id))
  {
    forall k | 0 <= k < |id| ensures id[k] != '/' { assert id[k] == '-' || IsHex(id[k]); }
  }

  /** A note's directory, title and id can be read back from its path, whatever "_", "." or ".md" the title contains. */
  lemma NotePathRoundTrip(parentDir: string, title: string, id: string)
    requires NoSlash(title) && IsUuidV4(id)
    ensures ParseNotePath(NotePath(parentDir, title, id)) == Some(NoteName(parentDir, title, id))
  {
    var file := NoteFile(title, id);
    NoteFileNoSlash(title, id);
    SplitSingle(file);
    assert |file| == |title| + 40;
    assert file[..|title|] == title && file[|title| + 1..|title| + 37] == id;
    if parentDir != "" {
      SplitAtSlash(parentDir, file);
      var cs := Split(parentDir) + [file];
      assert cs[..|cs| - 1] == Split(parentDir);
      JoinSplit(parentDir);
    }
  }

  // ---- The file on disk ----

  /** The note's file below the data directory, as components. */
  function NoteKey(parentDir: string, title: string, id: string): seq<string> {
    Components(parentDir) + [NoteFile(title, id)]
  }

  lemma NoteFileGood(title: string, id: string)
    requires ValidName(title) && IsUuidV4(id)
    ensures GoodComponent(NoteFile(title, id))
  {
    NoteFileNoSlash(title, id);
    forall k | 0 <= k < |id| ensures id[k] != '\\' && id[k] != '\0' { assert id[k] == '-' || IsHex(id[k]); }
    assert |NoteFile(title, id)| == |title| + 40;
  }

  /** `Join` drops a leading ".". */
  lemma DotPath(dataDir: Location, file: string)
    requires IsClean(dataDir) && GoodComponent(file)
    ensures JoinPath(PathText(dataDir), "." + "/" + file) == PathText(dataDir.(names := dataDir.names + [file]))
  {
    SplitSingle(".");
    SplitSingle(file);
    SplitAtSlash(".", file);
    CleanBelow(dataDir, "." + "/" + file);
    assert (["."] + [file])[1..] == [file];
    CleanStackGood([file], dataDir.rooted, dataDir.names);
  }

  /** `filepath.Join(s.dataDir, NotePath(...))` is the file at `NoteKey`: the title, "_", the id and ".md",
      in the note's directory. */
  lemma NotePathKey(dataDir: Location, parentDir: string, title: string, id: string)
    requires IsClean(dataDir) && Accepted(parentDir) && ValidName(title) && IsUuidV4(id)
    ensures JoinPath(PathText(dataDir), NotePath(parentDir, title, id))
         == PathText(dataDir.(names := dataDir.names + NoteKey(parentDir, title, id)))
    ensures NoteKey(parentDir, title, id) == Components(parentDir) + [title + "_" + id + ".md"]
  {
    var file := NoteFile(title, id);
    NoteFileGood(title, id);
    NoteFileNoSlash(title, id);
    SplitSingle(file);
    if parentDir == "" {
      assert Join([file]) == file && [] + [file] == [file];
      JoinPathGood(dataDir, [file]);
    } else if parentDir == "." {
      DotPath(dataDir, file);
      assert NoteKey(parentDir, title, id) == [file];
    } else {
      AcceptedGood(parentDir);
      JoinConcat(Split(parentDir), [file]);
      JoinPathGood(dataDir, Split(parentDir) + [file]);
    }
  }

  /** Two notes share a file only if they are the same note in the same directory. */
  lemma NoteKeyInjective(d: string, t: string, i: string, d': string, t': string, i': string)
    requires Accepted(d) && Accepted(d') && IsUuidV4(i) && IsUuidV4(i')
    ensures NoteKey(d, t, i) == NoteKey(d', t', i')
       <==> i == i' && t == t' && (d == d' || (d in {"", "."} && d' in {"", "."}))
  {
    ComponentsInjective(d, d');
    var k, k' := NoteKey(d, t, i), NoteKey(d', t', i');
    assert k[..|k| - 1] == Components(d) && k'[..|k'| - 1] == Components(d');
    var f, f' := NoteFile(t, i), NoteFile(t', i');
    assert |f| == |t| + 40 && |f'| == |t'| + 40;
    assert f[..|f| - 40] == t && f[|f| - 39..|f| - 3] == i;
    assert f'[..|f'| - 40] == t' && f'[|f'| - 39..|f'| - 3] == i';
    assert k == k' ==> k[|k| - 1] == k'[|k'| - 1];
  }
}
