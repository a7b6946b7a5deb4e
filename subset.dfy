/** The match arrays that subset queries return, and the two reducers that
    narrow them down in place by shifting the surviving entries to the
    front. */
module Subset {
  import opened Optional
  import opened CStr
  import opened CertConst
  import opened Classify
  import opened CertRecords
  import opened Seqs

  /** netsnmp_void_array: the first `size` slots of `slots` hold the
      matches. A fresh subset holds no NULL among them. */
  class MatchArray {
    var size: nat
    var slots: array<Cert?>

    ghost predicate Valid()
      reads this, slots
    {
      size <= slots.Length && forall k :: 0 <= k < size ==> slots[k] != null
    }

    /** The matches, in slots order. */
    ghost function Contents(): seq<Cert?>
      reads this, slots
      requires size <= slots.Length
    {
      slots[..size]
    }

    /** The slots a subset query hands out for `items`. */
    constructor (items: seq<Cert>)
      ensures Valid() && Contents() == items && fresh(slots)
    {
      var a := new Cert?[|items|](k requires 0 <= k < |items| => items[k]);
      slots := a;
      size := |items|;
    }

    /** The loop both reducers run: every entry that fails `keep` is removed
        by shifting the rest down one slot and clearing the freed slot, so
        the survivors keep their order and the size never grows. */
    method Compact(keep: Cert? -> bool)
      requires Valid()
      modifies this, slots
      ensures slots == old(slots) && Valid()
      ensures Contents() == Filter(old(Contents()), keep)
      ensures size <= old(size)
      ensures forall k :: size <= k < old(size) ==> slots[k] == null
      ensures forall k :: old(size) <= k < slots.Length ==> slots[k] == old(slots[k])
    {
      ghost var orig := slots[..size];
      ghost var n := size;
      var i: nat := 0;
      var newSize: nat := size;
      assert slots[..] == slots[..n] + slots[n..];
      CompactStart(slots[..], orig, keep);
      while i < size
        invariant size == n && n <= slots.Length && slots == old(slots)
        invariant forall k :: 0 <= k < n ==> orig[k] != null
        invariant CompactState(slots[..], orig, i, newSize, keep)
        invariant forall k :: n <= k < slots.Length ==> slots[k] == old(slots[k])
        decreases newSize - i
      {
        if slots[i] == null {
          break;
        }
        i, newSize := CompactStep(slots, keep, orig, i, newSize);
      }
      CompactEnds(slots[..], orig, i, newSize, keep);
      CompactFiltered(slots[..], orig, i, newSize, keep);
      ghost var fin := slots[..];
      FilteredNonNull(fin[..newSize], orig, keep);
      forall k | 0 <= k < newSize
        ensures slots[k] != null
      {
        assert slots[k] == fin[..newSize][k];
      }
      if newSize != size {
        size := newSize;
      }
      assert slots[..size] == fin[..newSize];
    }

    /** _reduce_subset: keeps the matches whose file name continues the stem
        with `.` and a registered extension, so that `snmp` keeps `snmp.key`
        but drops `snmpd.key`. */
    method ReduceSubset(stem: string)
      requires Valid()
      modifies this, slots
      ensures slots == old(slots) && Valid()
      ensures Contents() == Filter(old(Contents()), StemKeep(stem))
      ensures forall k :: size <= k < old(size) ==> slots[k] == null
    {
      Compact(StemKeep(stem));
    }

    /** _reduce_subset_dir: keeps the matches whose directory starts with
        the parent of `directory` (the text before its last `/`); a
        directory without `/` leaves the matches alone. */
    method ReduceSubsetDir(directory: string)
      requires Valid()
      modifies this, slots
      ensures slots == old(slots) && Valid()
      ensures Contents() == match ParentDir(directory)
                           case None => old(Contents())
                           case Some(parent) => Filter(old(Contents()), DirKeep(parent))
      ensures forall k :: size <= k < old(size) ==> slots[k] == null
    {
      var parent := ParentDir(directory);
      if parent.None? {
        return;
      }
      Compact(DirKeep(parent.value));
    }
  }

  /** One round of the compaction loop: the entry at `i` is kept, or it is
      removed by shifting the rest down. */
  method CompactStep(a: array<Cert?>, keep: Cert? -> bool, ghost orig: seq<Cert?>, i: nat, newSize: nat)
    returns (i': nat, newSize': nat)
    requires CompactState(a[..], orig, i, newSize, keep) && i < |orig| && a[i] != null
    modifies a
    ensures CompactState(a[..], orig, i', newSize', keep)
    ensures newSize' - i' == newSize - i - 1 && i <= i' && newSize' <= newSize
    ensures forall k :: |orig| <= k < a.Length ==> a[k] == old(a[k])
  {
    CompactNext(a[..], orig, i, newSize, keep);
    if keep(a[i]) {
      KeepStep(a[..], orig, i, newSize, keep);
      i', newSize' := i + 1, newSize;
    } else {
      ghost var before := a[..];
      newSize' := newSize - 1;
      ShiftDown(a, i, newSize');
      DropStep(before, a[..], orig, i, newSize, keep);
      i' := i;
    }
  }

  /** Where Compact stands: the first `i` slots hold what `keep` selects
      from the entries examined so far, the next ones hold the entries not
      yet examined, and the slots vacated by removals hold NULL. */
  ghost predicate CompactState(s: seq<Cert?>, orig: seq<Cert?>, i: nat, newSize: nat, keep: Cert? -> bool) {
    && i <= newSize <= |orig| <= |s|
    && s[..i] == Filter(orig[..i + (|orig| - newSize)], keep)
    && s[i..newSize] == orig[i + (|orig| - newSize)..]
    && forall k :: newSize <= k < |orig| ==> s[k] == null
  }

  lemma CompactStart(s: seq<Cert?>, orig: seq<Cert?>, keep: Cert? -> bool)
    requires |orig| <= |s| && s[..|orig|] == orig
    ensures CompactState(s, orig, 0, |orig|, keep)
  {
    assert orig[..0] == [];
  }

  lemma CompactNext(s: seq<Cert?>, orig: seq<Cert?>, i: nat, newSize: nat, keep: Cert? -> bool)
    requires CompactState(s, orig, i, newSize, keep) && i < |orig| && s[i] != null
    ensures i < newSize && s[i] == orig[i + (|orig| - newSize)]
  {
    assert s[i..newSize][0] == s[i];
  }

  lemma KeepStep(s: seq<Cert?>, orig: seq<Cert?>, i: nat, newSize: nat, keep: Cert? -> bool)
    requires CompactState(s, orig, i, newSize, keep) && i < newSize && keep(s[i])
    requires s[i] == orig[i + (|orig| - newSize)]
    ensures CompactState(s, orig, i + 1, newSize, keep)
  {
    var p := i + (|orig| - newSize);
    assert orig[..p + 1] == orig[..p] + [orig[p]];
    FilterSnoc(orig[..p], orig[p], keep);
    assert s[..i + 1] == s[..i] + [s[i]];
  }

  lemma DropStep(s: seq<Cert?>, t: seq<Cert?>, orig: seq<Cert?>, i: nat, newSize: nat, keep: Cert? -> bool)
    requires CompactState(s, orig, i, newSize, keep) && i < newSize && !keep(s[i])
    requires s[i] == orig[i + (|orig| - newSize)]
    requires t == Shifted(s, i, newSize - 1)
    ensures CompactState(t, orig, i, newSize - 1, keep)
    ensures t[|orig|..] == s[|orig|..]
  {
    var p := i + (|orig| - newSize);
    assert orig[..p + 1] == orig[..p] + [orig[p]];
    FilterSnoc(orig[..p], orig[p], keep);
    assert t[..i] == s[..i];
    assert t[i..newSize - 1] == s[i + 1..newSize];
  }

  /** The loop stops only once every entry has been examined. */
  lemma CompactEnds(s: seq<Cert?>, orig: seq<Cert?>, i: nat, newSize: nat, keep: Cert? -> bool)
    requires CompactState(s, orig, i, newSize, keep)
    requires forall k :: 0 <= k < |orig| ==> orig[k] != null
    requires i == |orig| || s[i] == null
    ensures i == newSize
  {
    SliceFirst(s, i, newSize);
  }

  /** Once every entry has been examined, the front is the selection. */
  lemma CompactFiltered(s: seq<Cert?>, orig: seq<Cert?>, i: nat, newSize: nat, keep: Cert? -> bool)
    requires CompactState(s, orig, i, newSize, keep) && i == newSize
    ensures s[..newSize] == Filter(orig, keep)
  {
    assert orig[..|orig|] == orig;
  }

  lemma SliceFirst(s: seq<Cert?>, lo: nat, hi: nat)
    requires lo <= hi <= |s|
    ensures lo < hi ==> s[lo..hi][0] == s[lo]
  {
  }

  /** What is selected from entries without NULL holds no NULL. */
  lemma FilteredNonNull(r: seq<Cert?>, orig: seq<Cert?>, keep: Cert? -> bool)
    requires forall k :: 0 <= k < |orig| ==> orig[k] != null
    requires r == Filter(orig, keep)
    ensures forall k :: 0 <= k < |r| ==> r[k] != null
  {
    FilterMembers(orig, keep);
  }

  /** `s` with the entry at `i` removed, the entries up to `m` moved down
      one slot, and slot `m` cleared. */
  function Shifted(s: seq<Cert?>, i: nat, m: nat): (t: seq<Cert?>)
    requires i <= m < |s|
    ensures |t| == |s|
  {
    seq(|s|, k requires 0 <= k < |s| => if k < i || m < k then s[k] else if k < m then s[k + 1] else null)
  }

  /** Moves the entries of a[i+1..m+1] down one slot and clears a[m]. */
  method ShiftDown(a: array<Cert?>, i: nat, m: nat)
    requires i <= m < a.Length
    modifies a
    ensures a[..] == Shifted(old(a[..]), i, m)
  {
    var j := i;
    while j < m
      invariant i <= j <= m
      invariant forall k :: 0 <= k < i ==> a[k] == old(a[k])
      invariant forall k :: i <= k < j ==> a[k] == old(a[k + 1])
      invariant forall k :: j <= k < a.Length ==> a[k] == old(a[k])
    {
      a[j] := a[j + 1];
      j := j + 1;
    }
    a[j] := null;
  }

  /** The test _reduce_subset applies to a file name found for `stem`: the
      character right after the stem is `.`, and the rest is an extension
      in the table (compared exactly, not via the last `.`). */
  predicate StemMatch(filename: string, stem: string) {
    |stem| < |filename| && filename[|stem|] == '.'
    && ExtType(filename[|stem| + 1..]) != CERT_TYPE_UNKNOWN
  }

  function StemKeep(stem: string): Cert? -> bool {
    (c: Cert?) => c != null && StemMatch(c.path.filename, stem)
  }

  /** For a name that starts with the stem, the test holds exactly when the
      name is the stem, a `.`, and one registered extension. */
  lemma StemMatchIff(filename: string, stem: string)
    requires IsPrefix(stem, filename)
    ensures StemMatch(filename, stem) <==>
      exists ext :: ext in KNOWN_EXTENSIONS && filename == stem + "." + ext
  {
    if StemMatch(filename, stem) {
      var ext := filename[|stem| + 1..];
      assert filename == stem + "." + ext;
    }
    if exists ext :: ext in KNOWN_EXTENSIONS && filename == stem + "." + ext {
      var ext :| ext in KNOWN_EXTENSIONS && filename == stem + "." + ext;
      assert filename[|stem|] == '.' && filename[|stem| + 1..] == ext;
    }
  }

  /** `snmp` keeps `snmp.key`, drops `snmpd.key` and `snmp.key.bak`. */
  lemma StemMatchExamples()
    ensures StemMatch("snmp.key", "snmp")
    ensures !StemMatch("snmpd.key", "snmp")
    ensures !StemMatch("snmp.key.bak", "snmp")
  {
    assert "snmp.key"[4 + 1..] == "key";
    assert "snmp.key.bak"[4 + 1..] == "key.bak";
  }

  /** The directory a key's certificate may live under: the key's
      directory with its last path component removed. */
  function ParentDir(directory: string): (parent: Option<string>)
    ensures parent.None? <==> '/' !in directory
    ensures parent.Some? ==>
      && IsPrefix(parent.value, directory) && |parent.value| < |directory|
      && directory[|parent.value|] == '/' && '/' !in directory[|parent.value| + 1..]
  {
    match LastIndexOf(directory, '/')
    case None => None
    case Some(i) =>
      var rest := directory[i + 1..];
      assert forall k :: 0 <= k < |rest| ==> rest[k] == directory[i + 1 + k];
      Some(directory[..i])
  }

  /** The test _reduce_subset_dir applies: strncmp over the parent's length. */
  function DirKeep(parent: string): Cert? -> bool {
    (c: Cert?) => c != null && Strncmp(parent, c.path.dir, |parent|) == 0
  }

  /** An entry survives the directory reduction exactly when its directory
      starts with the parent directory. */
  lemma DirKeepIff(parent: string, c: Cert)
    ensures DirKeep(parent)(c) <==> IsPrefix(parent, c.path.dir)
  {
    StrncmpPrefixLeft(parent, c.path.dir);
  }
}
