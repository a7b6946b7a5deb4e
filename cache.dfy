/** The on-disk cache of certificate directories. Each scanned directory
    gets an index file whose first line is `DIR <directory> <format>` and
    whose other lines describe one certificate (`c:`) or key (`k:`) each.
    A cached index is trusted only while nothing in the directory is newer
    than it and its format number is the current one; otherwise the
    directory is rescanned. File-system access is replaced by the stat
    values and the text it would return. */
module CacheIndex {
  import opened Optional
  import opened CStr
  import opened CertConst
  import opened Seqs

  /** The stat fields the checks look at. */
  datatype FileStat = FileStat(mtime: int, ctime: int)

  /** _time_filter: a directory entry is newer than the index (and is
      collected) when its mtime or ctime is not older than the index's mtime;
      an entry without stat data is not collected. */
  predicate TimeFilter(f: Option<FileStat>, indexMtime: int) {
    f.Some? && (f.value.mtime >= indexMtime || f.value.ctime >= indexMtime)
  }

  /** The entries the directory read with _time_filter collects. */
  function NewerFiles(files: seq<Option<FileStat>>, indexMtime: int): (newer: seq<Option<FileStat>>)
    ensures forall i :: 0 <= i < |newer| ==> TimeFilter(newer[i], indexMtime)
    ensures |newer| == 0 <==> forall i :: 0 <= i < |files| ==> !TimeFilter(files[i], indexMtime)
  {
    FilterNone(files, f => TimeFilter(f, indexMtime));
    FilterMembers(files, f => TimeFilter(f, indexMtime));
    Filter(files, f => TimeFilter(f, indexMtime))
  }

  /** The format number in an index's first line: what atoi makes of the
      text after its last space; nothing when the line has no space. */
  function HeaderVersion(line: string): (v: Option<int>)
    ensures v.None? <==> ' ' !in line
  {
    match LastIndexOf(line, ' ')
    case None => None
    case Some(i) => Some(Atoi(line[i + 1..]))
  }

  /** The checks _cert_read_index makes before it reads any entry, in the
      same order: the directory has an index (`indexStat` is None when it
      has none or the index cannot be stat'ed), the directory was not
      modified since the index was written, no file in it is newer than the
      index, the index can be opened, and its first line carries the
      current format number. True means the cached entries are used. */
  predicate IndexUsable(indexStat: Option<FileStat>, dirMtime: int,
                        files: seq<Option<FileStat>>, indexOpens: bool, firstLine: string)
  {
    if indexStat.None? then false
    else if dirMtime >= indexStat.value.mtime then false
    else if |NewerFiles(files, indexStat.value.mtime)| != 0 then false
    else if !indexOpens then false
    else HeaderVersion(firstLine) == Some(CERT_INDEX_FORMAT)
  }

  /** The cached index is used exactly when the directory and every file
      in it are strictly older than the index and the index is of the
      current format; in every other case the directory is rescanned. */
  lemma IndexUsableIff(indexStat: Option<FileStat>, dirMtime: int,
                       files: seq<Option<FileStat>>, indexOpens: bool, firstLine: string)
    ensures IndexUsable(indexStat, dirMtime, files, indexOpens, firstLine) <==>
      && indexStat.Some?
      && dirMtime < indexStat.value.mtime
      && (forall i :: 0 <= i < |files| && files[i].Some? ==>
            files[i].value.mtime < indexStat.value.mtime && files[i].value.ctime < indexStat.value.mtime)
      && indexOpens
      && HeaderVersion(firstLine) == Some(CERT_INDEX_FORMAT)
  {
  }

  /** The first line _certindex_new writes: `DIR %s %d\n`. */
  function HeaderLine(dir: string): (line: string)
    ensures IsPrefix("DIR ", line) && line[|line| - 1] == '\n'
  {
    "DIR " + dir + " " + IntToString(CERT_INDEX_FORMAT) + "\n"
  }

  /** fgets into a buffer of `size` characters: the text up to and
      including the first newline, but at most `size - 1` characters. */
  function Fgets(text: string, size: nat): (line: string)
    requires size >= 1
    ensures IsPrefix(line, text) && |line| <= size - 1
    ensures forall k :: 0 <= k < |line| - 1 ==> line[k] != '\n'
    ensures |line| == |text| || |line| == size - 1 || (|line| > 0 && line[|line| - 1] == '\n')
    decreases size
  {
    if |text| == 0 || size == 1 then ""
    else if text[0] == '\n' then "\n"
    else [text[0]] + Fgets(text[1..], size - 1)
  }

  /** What _certindexes_load makes of an index's first line as fgets
      returned it: the last character (the newline) is dropped, the text
      from the last space on is cut off, and the leading `DIR ` is skipped.
      Nothing is registered for an empty read, and a line too short to
      hold `DIR ` (which the C code reads past) yields nothing here. */
  function IndexedDir(line: string): (dir: Option<string>)
  {
    if |line| == 0 then None
    else
      var t := line[..|line| - 1];
      var u := match LastIndexOf(t, ' ') case None => t case Some(i) => t[..i];
      if |u| < 4 then None else Some(u[4..])
  }

  /** The buffer _certindexes_load reads the first line into. */
  const INDEX_LINE_BUFFER: nat := 300

  /** Writing the header and reading it back yields the directory again
      (it may contain spaces, but no newline, and must fit the 300
      character buffer together with `DIR `, ` 1` and the newline). */
  lemma {:induction false} HeaderRoundTrip(dir: string)
    requires '\n' !in dir && |dir| + 7 <= INDEX_LINE_BUFFER - 1
    ensures IndexedDir(Fgets(HeaderLine(dir), INDEX_LINE_BUFFER)) == Some(dir)
  {
    var line := HeaderLine(dir);
    HeaderLineShape(dir);
    assert line[..|line| - 1] == "DIR " + dir + " 1";
    FgetsWholeLine(line, INDEX_LINE_BUFFER);
    IndexedDirOfHeader(dir);
  }

  /** The header of `dir` spelled out. */
  lemma HeaderLineShape(dir: string)
    ensures HeaderLine(dir) == "DIR " + dir + " 1\n"
  {
    assert IntToString(CERT_INDEX_FORMAT) == "1";
  }

  /** The directory is what _certindexes_load recovers from a header line
      read back whole. */
  lemma IndexedDirOfHeader(dir: string)
    ensures IndexedDir("DIR " + dir + " 1\n") == Some(dir)
  {
    var line := "DIR " + dir + " 1\n";
    var t := line[..|line| - 1];
    assert t == ("DIR " + dir) + " 1";
    assert LastIndexOf(t, ' ') == Some(|dir| + 4) by {
      assert t[|dir| + 4] == ' ';
      assert forall k :: |dir| + 4 < k < |t| ==> t[k] == '1';
    }
    assert t[..|dir| + 4] == "DIR " + dir;
  }

  /** fgets returns a whole line that ends in its only newline and fits. */
  lemma {:induction false} FgetsWholeLine(line: string, size: nat)
    requires |line| > 0 && line[|line| - 1] == '\n' && '\n' !in line[..|line| - 1]
    requires |line| <= size - 1
    ensures Fgets(line, size) == line
    decreases |line|
  {
    if line[0] != '\n' {
      assert line[1..][..|line[1..]| - 1] == line[1..|line| - 1];
      FgetsWholeLine(line[1..], size - 1);
      assert line == [line[0]] + line[1..];
    } else {
      assert |line| == 1;
    }
  }

  /** The index header always carries the current format number, so a
      freshly written index passes the version check. */
  lemma HeaderVersionOfHeaderLine(dir: string)
    ensures HeaderVersion(HeaderLine(dir)) == Some(CERT_INDEX_FORMAT)
  {
    var line := HeaderLine(dir);
    assert IntToString(CERT_INDEX_FORMAT) == "1";
    assert line == ("DIR " + dir + " ") + "1\n";
    var i := |dir| + 4;
    assert line[i] == ' ' && line[i + 1..] == "1\n";
    assert LastIndexOf(line, ' ') == Some(i) by {
      assert forall k :: i < k < |line| ==> line[k] != ' ';
    }
    AtoiOfIntToString(1, "\n");
    assert IntToString(1) + "\n" == "1\n";
  }

  /** How the reader classifies an index line: by its first character. */
  datatype LineKind = CertLine | KeyLine | UnknownLine

  function KindOfLine(line: string): LineKind {
    if |line| > 0 && line[0] == 'c' then CertLine
    else if |line| > 0 && line[0] == 'k' then KeyLine
    else UnknownLine
  }

  /** printf's rendering of a string argument that may be NULL. */
  function CStrOrNull(s: Option<string>): string {
    s.GetOr("(null)")
  }

  /** The `c:` line _add_certfile writes for a certificate:
      `c:<file> <type> <hash> <fingerprint> '<common name>' '<subject>'`. */
  function CertIndexLine(filename: string, certType: int, hashType: int, fingerprint: string,
                         commonName: Option<string>, subject: Option<string>): (line: string)
    ensures KindOfLine(line) == CertLine
    ensures IsPrefix("c:" + filename + " ", line) && line[|line| - 1] == '\n'
  {
    "c:" + filename + " " + IntToString(certType) + " " + IntToString(hashType) + " "
    + fingerprint + " '" + CStrOrNull(commonName) + "' '" + CStrOrNull(subject) + "'\n"
  }

  /** The `k:` line _add_certfile writes for a key: `k:<file>`. */
  function KeyIndexLine(filename: string): (line: string)
    ensures KindOfLine(line) == KeyLine
    ensures |line| == |filename| + 3
    ensures line[2..|line| - 1] == filename && line[|line| - 1] == '\n'
  {
    "k:" + filename + "\n"
  }
}
