/**
 * The compilation loop of the parser: every `.html` file of the snapshot
 * folder contributes one record per game entry, appended to one list across
 * all files; the list is sorted in place by the pair (Date, Time) of strings
 * and written out under a header taken from the first record's keys.
 */
module Compile {
  import opened Wrappers
  import opened Text
  import opened Snapshots
  import opened Records

  // ---------------------------------------------------------------- what is appended

  /** The records of one page's game entries, in page order. */
  function RecordsOf(games: seq<GameEntry>, key: FileKey): seq<GameRecord> {
    MapSeq(Build(key), games)
  }

  /** The record builder for the games of one file. */
  function Build(key: FileKey): GameEntry -> GameRecord {
    game => BuildRecord(game, key)
  }

  /** `[f(x) for x in xs]`, built by appending at the end as the loop does. */
  function MapSeq<A, B>(f: A -> B, xs: seq<A>): seq<B> {
    if xs == [] then [] else MapSeq(f, xs[..|xs| - 1]) + [f(xs[|xs| - 1])]
  }

  lemma {:induction false} MapSeqEntries<A, B>(f: A -> B, xs: seq<A>)
    ensures |MapSeq(f, xs)| == |xs|
    ensures forall k :: 0 <= k < |xs| ==> MapSeq(f, xs)[k] == f(xs[k])
  {
    if xs != [] {
      var n := |xs| - 1;
      MapSeqEntries(f, xs[..n]);
      assert forall k :: 0 <= k < n ==> xs[..n][k] == xs[k];
    }
  }

  /** A page yields exactly one record per game entry, built from that entry, in page order. */
  lemma RecordsOfEntries(games: seq<GameEntry>, key: FileKey)
    ensures |RecordsOf(games, key)| == |games|
    ensures forall k :: 0 <= k < |games| ==> RecordsOf(games, key)[k] == BuildRecord(games[k], key)
  {
    MapSeqEntries(Build(key), games);
  }

  lemma MapSeqStep<A, B>(f: A -> B, xs: seq<A>, j: nat)
    requires j < |xs|
    ensures MapSeq(f, xs[..j + 1]) == MapSeq(f, xs[..j]) + [f(xs[j])]
  {
    assert xs[..j + 1][..j] == xs[..j];
  }

  /** The records one file contributes: none unless its name ends in `.html`. */
  function PageRecords(f: PageFile): seq<GameRecord> {
    match DecodeFilename(f.name)
    case None => []
    case Some(key) => RecordsOf(f.games, key)
  }

  /** The records appended to the master list after the files `files`, in listing order. */
  function Appended(files: seq<PageFile>): seq<GameRecord> {
    if files == [] then []
    else Appended(files[..|files| - 1]) + PageRecords(files[|files| - 1])
  }

  /** The number of game entries over all `.html` files of the folder. */
  function GameCount(files: seq<PageFile>): nat {
    if files == [] then 0
    else
      var last := files[|files| - 1];
      GameCount(files[..|files| - 1]) + (if EndsWith(last.name, HtmlSuffix) then |last.games| else 0)
  }

  /** No game entry of an `.html` file is dropped and nothing else is added. */
  lemma {:induction false} AppendedLength(files: seq<PageFile>)
    ensures |Appended(files)| == GameCount(files)
  {
    if files != [] {
      AppendedLength(files[..|files| - 1]);
      PageRecordsLength(files[|files| - 1]);
    }
  }

  /** An `.html` file yields one record per game entry; any other file yields none. */
  lemma PageRecordsLength(f: PageFile)
    ensures |PageRecords(f)| == if EndsWith(f.name, HtmlSuffix) then |f.games| else 0
  {
    match DecodeFilename(f.name)
    case None =>
    case Some(key) => RecordsOfEntries(f.games, key);
  }

  /** Listing one more file appends its records and its count. */
  lemma AppendedSnoc(files: seq<PageFile>, f: PageFile)
    ensures Appended(files + [f]) == Appended(files) + PageRecords(f)
    ensures GameCount(files + [f]) == GameCount(files) + (if EndsWith(f.name, HtmlSuffix) then |f.games| else 0)
  {
    assert (files + [f])[..|files + [f]| - 1] == files;
  }

  /** Concatenation is associative. */
  lemma ConcatAssoc<T>(a: seq<T>, b: seq<T>, c: seq<T>)
    ensures (a + b) + c == a + (b + c)
  {
  }

  /** A file whose name does not end in `.html` contributes nothing, wherever it is listed. */
  lemma {:induction false} NonHtmlContributesNothing(before: seq<PageFile>, f: PageFile, after: seq<PageFile>)
    requires !EndsWith(f.name, HtmlSuffix)
    ensures Appended(before + [f] + after) == Appended(before + after)
    ensures GameCount(before + [f] + after) == GameCount(before + after)
    decreases |after|
  {
    assert PageRecords(f) == [];
    if after == [] {
      assert before + [f] + after == before + [f];
      assert before + after == before;
      AppendedSnoc(before, f);
    } else {
      var init := after[..|after| - 1];
      var last := after[|after| - 1];
      NonHtmlContributesNothing(before, f, init);
      assert after == init + [last];
      ConcatAssoc(before + [f], init, [last]);
      ConcatAssoc(before, init, [last]);
      AppendedSnoc(before + [f] + init, last);
      AppendedSnoc(before + init, last);
    }
  }

  /** Reading two listings one after the other gives the records of the first, then those of the second. */
  lemma {:induction false} AppendedConcat(xs: seq<PageFile>, ys: seq<PageFile>)
    ensures Appended(xs + ys) == Appended(xs) + Appended(ys)
    decreases |ys|
  {
    if ys == [] {
      assert xs + ys == xs;
    } else {
      var init, last := ys[..|ys| - 1], ys[|ys| - 1];
      assert ys == init + [last];
      AppendedConcat(xs, init);
      ConcatAssoc(xs, init, [last]);
      AppendedSnoc(xs + init, last);
      AppendedSnoc(init, last);
      ConcatAssoc(Appended(xs), Appended(init), PageRecords(last));
    }
  }

  /**
   * The records collected from a listing, as a multiset, do not depend on
   * the order `os.listdir` returns the files in.
   */
  lemma {:induction false} AppendedPermutation(xs: seq<PageFile>, ys: seq<PageFile>)
    requires multiset(xs) == multiset(ys)
    ensures multiset(Appended(xs)) == multiset(Appended(ys))
    decreases |xs|
  {
    if xs == [] {
      assert |ys| == |multiset(ys)| == 0;
    } else {
      var init, last := xs[..|xs| - 1], xs[|xs| - 1];
      assert xs == init + [last];
      assert multiset(init) == multiset(xs) - multiset{last};
      assert last in multiset(ys);
      var k :| 0 <= k < |ys| && ys[k] == last;
      SplitAt(ys, k);
      AppendedPermutation(init, ys[..k] + ys[k + 1..]);
      AppendedSnoc(init, last);
      AppendedAround(ys[..k], last, ys[k + 1..]);
    }
  }

  /** Taking one element out of a sequence. */
  lemma SplitAt<T>(ys: seq<T>, k: nat)
    requires k < |ys|
    ensures ys == (ys[..k] + [ys[k]]) + ys[k + 1..]
    ensures multiset(ys[..k] + ys[k + 1..]) == multiset(ys) - multiset{ys[k]}
  {
    assert ys == (ys[..k] + [ys[k]]) + ys[k + 1..];
  }

  /** The records of a listing with one file singled out, as a multiset. */
  lemma AppendedAround(before: seq<PageFile>, f: PageFile, after: seq<PageFile>)
    ensures multiset(Appended((before + [f]) + after))
         == multiset(Appended(before + after)) + multiset(PageRecords(f))
  {
    AppendedConcat(before + [f], after);
    AppendedConcat(before, after);
    AppendedSnoc(before, f);
  }

  /**
   * Two runs over listings holding the same files in any order: whenever
   * each writes a sorted permutation of the records it collected, as
   * `ParseSchedules` does, the two outputs have the same rows and agree on
   * date and time row by row.
   */
  lemma ListingOrderIrrelevant(xs: seq<PageFile>, ys: seq<PageFile>, rx: seq<GameRecord>, ry: seq<GameRecord>)
    requires multiset(xs) == multiset(ys)
    requires multiset(rx) == multiset(Appended(xs)) && SortedByDateTime(rx)
    requires multiset(ry) == multiset(Appended(ys)) && SortedByDateTime(ry)
    ensures GameCount(xs) == GameCount(ys)
    ensures multiset(rx) == multiset(ry)
    ensures |rx| == |ry| && forall i :: 0 <= i < |rx| ==> SameKey(rx[i], ry[i])
  {
    AppendedPermutation(xs, ys);
    AppendedLength(xs);
    AppendedLength(ys);
    assert |Appended(xs)| == |multiset(Appended(xs))| == |multiset(Appended(ys))| == |Appended(ys)|;
    SortedRowsDetermined(rx, ry);
  }

  // ---------------------------------------------------------------- the sort key

  /** `(a.Date, a.Time) <= (b.Date, b.Time)` on Python tuples of strings. */
  predicate KeyLe(a: GameRecord, b: GameRecord) {
    Less(a.date, b.date) || (a.date == b.date && (Less(a.time, b.time) || a.time == b.time))
  }

  lemma KeyLeTotal(a: GameRecord, b: GameRecord)
    ensures KeyLe(a, b) || KeyLe(b, a)
  {
    LessTrichotomy(a.date, b.date);
    LessTrichotomy(a.time, b.time);
  }

  lemma KeyLeTransitive(a: GameRecord, b: GameRecord, c: GameRecord)
    requires KeyLe(a, b) && KeyLe(b, c)
    ensures KeyLe(a, c)
  {
    if Less(a.date, b.date) && Less(b.date, c.date) { LessTransitive(a.date, b.date, c.date); }
    if a.date == b.date && b.date == c.date && Less(a.time, b.time) && Less(b.time, c.time) {
      LessTransitive(a.time, b.time, c.time);
    }
  }

  /** Two records each no later than the other have the same (Date, Time). */
  lemma KeyLeAntisymmetric(a: GameRecord, b: GameRecord)
    requires KeyLe(a, b) && KeyLe(b, a)
    ensures a.date == b.date && a.time == b.time
  {
    if Less(a.date, b.date) { LessAsymmetric(a.date, b.date); }
    if Less(b.date, a.date) { LessAsymmetric(b.date, a.date); }
    if a.date == b.date && Less(a.time, b.time) { LessAsymmetric(a.time, b.time); }
  }

  /** Sorted non-decreasingly by (Date, Time): no later row sorts before an earlier one. */
  predicate SortedByDateTime(s: seq<GameRecord>) {
    forall i, j :: 0 <= i < j < |s| ==> KeyLe(s[i], s[j])
  }

  predicate AdjacentSorted(s: seq<GameRecord>) {
    forall k :: 0 <= k < |s| - 1 ==> KeyLe(s[k], s[k + 1])
  }

  /** With a transitive order, neighbours in order put the whole sequence in order. */
  lemma {:induction false} AdjacentSortedIsSorted(s: seq<GameRecord>)
    requires AdjacentSorted(s)
    ensures SortedByDateTime(s)
  {
    forall i, j | 0 <= i < j < |s| ensures KeyLe(s[i], s[j]) {
      AdjacentChain(s, i, j);
    }
  }

  lemma {:induction false} AdjacentChain(s: seq<GameRecord>, i: nat, j: nat)
    requires AdjacentSorted(s) && i < j < |s|
    ensures KeyLe(s[i], s[j])
    decreases j - i
  {
    if i + 1 < j {
      AdjacentChain(s, i + 1, j);
      KeyLeTransitive(s[i], s[i + 1], s[j]);
    }
  }

  /** The two fields the sort key reads agree. */
  predicate SameKey(a: GameRecord, b: GameRecord) {
    a.date == b.date && a.time == b.time
  }

  /** Two sorted arrangements of the same records start with the same key. */
  lemma FirstKeysAgree(s: seq<GameRecord>, t: seq<GameRecord>)
    requires multiset(s) == multiset(t) && |s| > 0
    requires SortedByDateTime(s) && SortedByDateTime(t)
    ensures |t| > 0 && SameKey(s[0], t[0])
  {
    assert s[0] in multiset(t);
    var k :| 0 <= k < |t| && t[k] == s[0];
    assert t[0] in multiset(s);
    var m :| 0 <= m < |s| && s[m] == t[0];
    assert KeyLe(s[0], t[0]) by { if m > 0 { assert KeyLe(s[0], s[m]); } }
    assert KeyLe(t[0], s[0]) by { if k > 0 { assert KeyLe(t[0], t[k]); } }
    KeyLeAntisymmetric(s[0], t[0]);
  }

  /** In a sorted sequence everything between two rows of one key has that key. */
  lemma RunOfOneKey(t: seq<GameRecord>, a: nat, k: nat)
    requires SortedByDateTime(t) && a <= k < |t| && SameKey(t[k], t[a])
    ensures forall i :: a <= i <= k ==> SameKey(t[i], t[a])
  {
    forall i | a < i < k ensures SameKey(t[i], t[a]) {
      assert KeyLe(t[a], t[i]) && KeyLe(t[i], t[k]);
      KeyLeTransitive(t[i], t[k], t[a]);
      KeyLeAntisymmetric(t[a], t[i]);
    }
  }

  /** `t` with the row at position `k` taken out. */
  function Without(t: seq<GameRecord>, k: nat): (r: seq<GameRecord>)
    requires k < |t|
    ensures |r| == |t| - 1
    ensures forall i :: 0 <= i < |r| ==> r[i] == (if i < k then t[i] else t[i + 1])
    ensures multiset(r) == multiset(t) - multiset{t[k]}
  {
    assert t == t[..k] + [t[k]] + t[k + 1..];
    t[..k] + t[k + 1..]
  }

  lemma WithoutSorted(t: seq<GameRecord>, k: nat)
    requires k < |t| && SortedByDateTime(t)
    ensures SortedByDateTime(Without(t, k))
  {
    var r := Without(t, k);
    forall a, b | 0 <= a < b < |r| ensures KeyLe(r[a], r[b]) {
      var a' := if a < k then a else a + 1;
      var b' := if b < k then b else b + 1;
      assert r[a] == t[a'] && r[b] == t[b'] && a' < b';
    }
  }

  /**
   * Sorting fixes the Date and Time columns: two sorted arrangements of the
   * same records agree on (Date, Time) row by row, whatever order the files
   * were listed in; only records with equal keys may trade places.
   */
  lemma {:induction false} SortedRowsDetermined(s: seq<GameRecord>, t: seq<GameRecord>)
    requires multiset(s) == multiset(t)
    requires SortedByDateTime(s) && SortedByDateTime(t)
    ensures |s| == |t|
    ensures forall i :: 0 <= i < |s| ==> SameKey(s[i], t[i])
    decreases |s|
  {
    assert |s| == |multiset(s)| == |multiset(t)| == |t|;
    if |s| > 0 {
      FirstKeysAgree(s, t);
      assert s[0] in multiset(t);
      var k :| 0 <= k < |t| && t[k] == s[0];
      RunOfOneKey(t, 0, k);
      var rest := Without(t, k);
      WithoutSorted(t, k);
      TailOfSorted(s);
      SortedRowsDetermined(s[1..], rest);
      WithoutShifts(t, k);
      ShiftedKeysAgree(s, t, rest);
    }
  }

  lemma TailOfSorted(s: seq<GameRecord>)
    requires |s| > 0 && SortedByDateTime(s)
    ensures multiset(s[1..]) == multiset(s) - multiset{s[0]}
    ensures SortedByDateTime(s[1..])
  {
    assert s == [s[0]] + s[1..];
  }

  /** Keys agreeing at the head, and the tail of `s` agreeing with `rest` whose keys are those of `t` one place on. */
  lemma ShiftedKeysAgree(s: seq<GameRecord>, t: seq<GameRecord>, rest: seq<GameRecord>)
    requires |s| == |t| > 0 && |rest| == |s| - 1 && SameKey(s[0], t[0])
    requires forall i :: 0 <= i < |rest| ==> SameKey(s[1..][i], rest[i])
    requires forall i :: 0 < i < |t| ==> SameKey(rest[i - 1], t[i])
    ensures forall i :: 0 <= i < |s| ==> SameKey(s[i], t[i])
  {
    forall i | 0 < i < |s| ensures SameKey(s[i], t[i]) {
      assert s[i] == s[1..][i - 1];
      assert SameKey(s[1..][i - 1], rest[i - 1]) && SameKey(rest[i - 1], t[i]);
    }
  }

  /** Rows before `k` all having the key of the first row, removing row `k` shifts keys by one place. */
  lemma WithoutShifts(t: seq<GameRecord>, k: nat)
    requires k < |t| && forall i :: 0 <= i <= k ==> SameKey(t[i], t[0])
    ensures forall i :: 0 < i < |t| ==> SameKey(Without(t, k)[i - 1], t[i])
  {
    var r := Without(t, k);
    forall i | 0 < i < |t| ensures SameKey(r[i - 1], t[i]) {
      if i - 1 < k {
        assert r[i - 1] == t[i - 1] && SameKey(t[i - 1], t[0]) && SameKey(t[i], t[0]);
      } else {
        assert r[i - 1] == t[i];
      }
    }
  }

  // ---------------------------------------------------------------- the in-place sort

  method Swap(a: array<GameRecord>, i: nat, j: nat)
    requires i < a.Length && j < a.Length
    modifies a
    ensures a[i] == old(a[j]) && a[j] == old(a[i])
    ensures forall k :: 0 <= k < a.Length && k != i && k != j ==> a[k] == old(a[k])
    ensures multiset(a[..]) == old(multiset(a[..]))
  {
    a[i], a[j] := a[j], a[i];
  }

  /**
   * `master_data.sort(key=lambda x: (x['Date'], x['Time']))`, by insertion:
   * afterwards the array is sorted by (Date, Time) and holds the same records.
   */
  method SortByDateTime(a: array<GameRecord>)
    modifies a
    ensures SortedByDateTime(a[..])
    ensures multiset(a[..]) == old(multiset(a[..]))
  {
    var i := 0;
    while i < a.Length
      invariant 0 <= i <= a.Length
      invariant forall k :: 0 <= k < i - 1 ==> KeyLe(a[k], a[k + 1])
      invariant multiset(a[..]) == old(multiset(a[..]))
    {
      var j := i;
      while j > 0 && !KeyLe(a[j - 1], a[j])
        invariant 0 <= j <= i
        invariant forall k :: 0 <= k < j - 1 ==> KeyLe(a[k], a[k + 1])
        invariant forall k :: j <= k < i ==> KeyLe(a[k], a[k + 1])
        invariant 0 < j < i ==> KeyLe(a[j - 1], a[j + 1])
        invariant multiset(a[..]) == old(multiset(a[..]))
      {
        KeyLeTotal(a[j - 1], a[j]);
        Swap(a, j - 1, j);
        j := j - 1;
      }
      i := i + 1;
    }
    AdjacentSortedIsSorted(a[..]);
  }

  // ---------------------------------------------------------------- parse_schedules

  /** How a run of the compiler ends. */
  datatype Outcome =
    | EmptyFolder
      // the folder lists nothing: the run stops and writes nothing
    | NoRecords
      // files but not one record: the output file has been opened for
      // writing (and so emptied) when reading the first record fails
    | Written(header: seq<string>, rows: seq<GameRecord>)
      // the header row and the data rows of the compiled file

  /** One more file listed: its records come after those of the files before it. */
  lemma AppendedStep(files: seq<PageFile>, i: nat)
    requires i < |files|
    ensures Appended(files[..i + 1]) == Appended(files[..i]) + PageRecords(files[i])
  {
    assert files[..i + 1][..i] == files[..i];
  }

  lemma RecordsOfStep(games: seq<GameEntry>, j: nat, key: FileKey)
    requires j < |games|
    ensures RecordsOf(games[..j + 1], key) == RecordsOf(games[..j], key) + [BuildRecord(games[j], key)]
  {
    MapSeqStep(Build(key), games, j);
  }

  /** The records of a decoded file are its page's records. */
  lemma PageRecordsOfKey(f: PageFile, key: FileKey)
    requires DecodeFilename(f.name) == Some(key)
    ensures PageRecords(f) == RecordsOf(f.games, key)
  {
  }

  /** The inner loop of `parse_schedules`: appends one record per game entry of a page. */
  method AppendPage(master: seq<GameRecord>, games: seq<GameEntry>, key: FileKey) returns (out: seq<GameRecord>)
    ensures out == master + RecordsOf(games, key)
  {
    out := master;
    var j := 0;
    while j < |games|
      invariant 0 <= j <= |games|
      invariant out == master + RecordsOf(games[..j], key)
    {
      RecordsOfStep(games, j, key);
      ConcatAssoc(master, RecordsOf(games[..j], key), [BuildRecord(games[j], key)]);
      out := out + [BuildRecord(games[j], key)];
      j := j + 1;
    }
    assert games[..j] == games;
  }

  /** The loop of `parse_schedules` over the listing, before the sort. */
  method Collect(files: seq<PageFile>) returns (master: seq<GameRecord>)
    ensures master == Appended(files)
  {
    master := [];
    var i := 0;
    while i < |files|
      invariant 0 <= i <= |files|
      invariant master == Appended(files[..i])
    {
      var f := files[i];
      AppendedStep(files, i);
      match DecodeFilename(f.name) {
        case None =>
          assert PageRecords(f) == [];
        case Some(key) =>
          PageRecordsOfKey(f, key);
          master := AppendPage(master, f.games, key);
      }
      i := i + 1;
    }
    assert files[..i] == files;
  }

  /**
   * `parse_schedules` over a folder listing `files` (name and game entries
   * of each file, in listing order).
   */
  method ParseSchedules(files: seq<PageFile>) returns (out: Outcome)
    ensures out.EmptyFolder? <==> files == []
    ensures out.NoRecords? <==> files != [] && GameCount(files) == 0
    ensures out.Written? ==>
      && out.header == FieldOrder
      && |out.rows| == GameCount(files)
      && multiset(out.rows) == multiset(Appended(files))
      && SortedByDateTime(out.rows)
  {
    if files == [] {
      return EmptyFolder;
    }
    var master := Collect(files);
    AppendedLength(files);
    var a := new GameRecord[|master|](k requires 0 <= k < |master| => master[k]);
    assert a[..] == master;
    SortByDateTime(a);
    var sorted := a[..];
    if |sorted| == 0 {
      return NoRecords;
    }
    KeysOfRecord(sorted[0]);
    return Written(Keys(AsDict(sorted[0])), sorted);
  }
}
