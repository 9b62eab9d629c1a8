/**
 * The pre-scan shared by `pre_scan_elixir` and `pre_scan_heex`: every file is
 * parsed and queried, and each capture under the wanted capture name appends the
 * file's resolved path to the list kept for the captured text. A file whose
 * read or parse raises contributes nothing and the scan goes on.
 */
module PreScan {

  /** One capture of the pre-scan query: the node's text and its capture name. */
  datatype NamedText = NamedText(text: string, capName: string)

  /** What scanning one file produced: nothing when opening, reading or
      parsing it raised, else the captures of the query in order. */
  datatype Scanned = Failed | Captured(captures: seq<NamedText>)

  /** A file of the batch: its resolved path and what scanning it gave. */
  datatype FileScan = FileScan(path: string, result: Scanned)

  /** Captured name to the resolved paths of the files it was captured in. */
  type ImportsMap = map<string, seq<string>>

  /** The capture name `pre_scan_elixir` keeps: module names and def/defp names. */
  const ElixirCapture := "name"

  /** The capture name `pre_scan_heex` keeps: component names. */
  const HeexCapture := "comp_name"

  /** The list kept for `name`, empty when there is none yet. */
  function Lookup(m: ImportsMap, name: string): seq<string> {
    if name in m then m[name] else []
  }

  /** The map after one capture of the file at `path`: a capture under
      `capName` appends `path` to the list of its text, creating it if needed. */
  function Record(m: ImportsMap, c: NamedText, capName: string, path: string): ImportsMap {
    if c.capName == capName then m[c.text := Lookup(m, c.text) + [path]] else m
  }

  /** The map after the first `k` captures of `caps`, taken from the file at `path`. */
  function AddCaptures(m: ImportsMap, caps: seq<NamedText>, k: nat, capName: string, path: string): ImportsMap
    requires k <= |caps|
  {
    if k == 0 then m else Record(AddCaptures(m, caps, k - 1, capName, path), caps[k - 1], capName, path)
  }

  /** The map after the first `k` files of the batch. */
  function ScanUpTo(files: seq<FileScan>, k: nat, capName: string): ImportsMap
    requires k <= |files|
  {
    if k == 0 then map[] else ScanFile(ScanUpTo(files, k - 1, capName), files[k - 1], capName)
  }

  /** The map after one more file: unchanged when the file failed. */
  function ScanFile(m: ImportsMap, f: FileScan, capName: string): ImportsMap {
    if f.result.Failed? then m else AddCaptures(m, f.result.captures, |f.result.captures|, capName, f.path)
  }

  /** The map `pre_scan_*` returns for the batch `files`. */
  function ScanAll(files: seq<FileScan>, capName: string): ImportsMap {
    ScanUpTo(files, |files|, capName)
  }

  /** What one capture adds to the list of `name`. */
  function Hit(c: NamedText, capName: string, name: string, path: string): seq<string> {
    if c.capName == capName && c.text == name then [path] else []
  }

  /** One copy of `path` for each of the first `k` captures of `caps` that
      names `name` under `capName`. */
  function Hits(caps: seq<NamedText>, k: nat, capName: string, name: string, path: string): seq<string>
    requires k <= |caps|
  {
    if k == 0 then [] else Hits(caps, k - 1, capName, name, path) + Hit(caps[k - 1], capName, name, path)
  }

  /** The paths one file adds for `name`: none when it failed. */
  function FileHits(f: FileScan, capName: string, name: string): seq<string> {
    if f.result.Failed? then [] else Hits(f.result.captures, |f.result.captures|, capName, name, f.path)
  }

  /** The paths the first `k` files record for `name`, in scan order: a
      reference definition of what the map holds, file by file. */
  function OccurrencesUpTo(files: seq<FileScan>, k: nat, capName: string, name: string): seq<string>
    requires k <= |files|
  {
    if k == 0 then [] else OccurrencesUpTo(files, k - 1, capName, name) + FileHits(files[k - 1], capName, name)
  }

  /** The paths the whole batch records for `name`. */
  function Occurrences(files: seq<FileScan>, capName: string, name: string): seq<string> {
    OccurrencesUpTo(files, |files|, capName, name)
  }

  /** Recording one capture appends its hit to the list of `name`. */
  lemma RecordHit(m: ImportsMap, c: NamedText, capName: string, path: string, name: string)
    ensures Lookup(Record(m, c, capName, path), name) == Lookup(m, name) + Hit(c, capName, name, path)
  {
    if !(c.capName == capName && c.text == name) {
      assert Lookup(m, name) + [] == Lookup(m, name);
    }
  }

  /** Adding a file's captures appends its hits to each list. */
  lemma {:induction false} AddCapturesHits(m: ImportsMap, caps: seq<NamedText>, k: nat, capName: string, path: string, name: string)
    requires k <= |caps|
    ensures Lookup(AddCaptures(m, caps, k, capName, path), name) == Lookup(m, name) + Hits(caps, k, capName, name, path)
  {
    if k != 0 {
      AddCapturesHits(m, caps, k - 1, capName, path, name);
      var front := AddCaptures(m, caps, k - 1, capName, path);
      RecordHit(front, caps[k - 1], capName, path, name);
      var x, y, z := Lookup(m, name), Hits(caps, k - 1, capName, name, path), Hit(caps[k - 1], capName, name, path);
      assert x + y + z == x + (y + z);
    }
  }

  /** Adding a file's captures creates a key only for a name that was hit. */
  lemma {:induction false} AddCapturesKeys(m: ImportsMap, caps: seq<NamedText>, k: nat, capName: string, path: string, name: string)
    requires k <= |caps|
    ensures name in AddCaptures(m, caps, k, capName, path) <==> name in m || Hits(caps, k, capName, name, path) != []
  {
    if k != 0 {
      AddCapturesKeys(m, caps, k - 1, capName, path, name);
      var c := caps[k - 1];
      var y := Hits(caps, k - 1, capName, name, path);
      if c.capName == capName && c.text == name {
        assert |Hits(caps, k, capName, name, path)| > 0;
      } else {
        assert Hits(caps, k, capName, name, path) == y + [] == y;
      }
    }
  }

  /** One more file appends its hits to each list and creates a key only
      for a name it hit. */
  lemma ScanFileHits(m: ImportsMap, f: FileScan, capName: string, name: string)
    ensures Lookup(ScanFile(m, f, capName), name) == Lookup(m, name) + FileHits(f, capName, name)
    ensures name in ScanFile(m, f, capName) <==> name in m || FileHits(f, capName, name) != []
  {
    if f.result.Captured? {
      var caps := f.result.captures;
      AddCapturesHits(m, caps, |caps|, capName, f.path, name);
      AddCapturesKeys(m, caps, |caps|, capName, f.path, name);
    } else {
      assert Lookup(m, name) + [] == Lookup(m, name);
    }
  }

  /** The map holds, for each name, exactly its occurrences. */
  lemma {:induction false} ScanUpToLookup(files: seq<FileScan>, k: nat, capName: string, name: string)
    requires k <= |files|
    ensures Lookup(ScanUpTo(files, k, capName), name) == OccurrencesUpTo(files, k, capName, name)
  {
    if k != 0 {
      ScanUpToLookup(files, k - 1, capName, name);
      ScanFileHits(ScanUpTo(files, k - 1, capName), files[k - 1], capName, name);
    }
  }

  /** The map has a key exactly for the names that occur. */
  lemma {:induction false} ScanUpToKeys(files: seq<FileScan>, k: nat, capName: string, name: string)
    requires k <= |files|
    ensures name in ScanUpTo(files, k, capName) <==> OccurrencesUpTo(files, k, capName, name) != []
  {
    if k != 0 {
      ScanUpToKeys(files, k - 1, capName, name);
      ScanFileHits(ScanUpTo(files, k - 1, capName), files[k - 1], capName, name);
      var before, hits := OccurrencesUpTo(files, k - 1, capName, name), FileHits(files[k - 1], capName, name);
      assert |before + hits| == |before| + |hits|;
    }
  }

  /** The whole map: each name's list is its occurrences, and the keys are
      the names that occur. */
  lemma ScanAllOccurrences(files: seq<FileScan>, capName: string, name: string)
    ensures Lookup(ScanAll(files, capName), name) == Occurrences(files, capName, name)
    ensures name in ScanAll(files, capName) <==> Occurrences(files, capName, name) != []
  {
    ScanUpToLookup(files, |files|, capName, name);
    ScanUpToKeys(files, |files|, capName, name);
  }

  /** The map after the first `k` files depends on those files only. */
  lemma {:induction false} ScanPrefix(xs: seq<FileScan>, ys: seq<FileScan>, k: nat, capName: string)
    requires k <= |xs| && k <= |ys| && xs[..k] == ys[..k]
    ensures ScanUpTo(xs, k, capName) == ScanUpTo(ys, k, capName)
  {
    if k != 0 {
      assert xs[k - 1] == xs[..k][k - 1] == ys[..k][k - 1] == ys[k - 1];
      assert xs[..k - 1] == xs[..k][..k - 1] == ys[..k][..k - 1] == ys[..k - 1];
      ScanPrefix(xs, ys, k - 1, capName);
    }
  }

  /** Two scans that agree at some point and then see the same `n` files
      agree after them. */
  lemma {:induction false} ScanSameFiles(xs: seq<FileScan>, i: nat, ys: seq<FileScan>, j: nat, n: nat, capName: string)
    requires i + n <= |xs| && j + n <= |ys|
    requires ScanUpTo(xs, i, capName) == ScanUpTo(ys, j, capName)
    requires xs[i..i + n] == ys[j..j + n]
    ensures ScanUpTo(xs, i + n, capName) == ScanUpTo(ys, j + n, capName)
  {
    if n != 0 {
      assert xs[i + n - 1] == xs[i..i + n][n - 1] == ys[j..j + n][n - 1] == ys[j + n - 1];
      assert xs[i..i + n - 1] == xs[i..i + n][..n - 1] == ys[j..j + n][..n - 1] == ys[j..j + n - 1];
      ScanSameFiles(xs, i, ys, j, n - 1, capName);
    }
  }

  /** Scanning more files only appends: no key disappears and every list
      grows by a suffix. */
  lemma {:induction false} ScanGrows(files: seq<FileScan>, more: seq<FileScan>, k: nat, capName: string, name: string)
    requires k <= |more|
    requires name in ScanAll(files, capName)
    ensures name in ScanUpTo(files + more, |files| + k, capName)
    ensures ScanAll(files, capName)[name] <= ScanUpTo(files + more, |files| + k, capName)[name]
  {
    var all := files + more;
    if k == 0 {
      assert all[..|files|] == files[..|files|];
      ScanPrefix(all, files, |files|, capName);
    } else {
      ScanGrows(files, more, k - 1, capName, name);
      ScanFileGrows(ScanUpTo(all, |files| + k - 1, capName), all[|files| + k - 1], capName, name);
    }
  }

  /** One more file keeps every key and extends every list. */
  lemma ScanFileGrows(m: ImportsMap, f: FileScan, capName: string, name: string)
    requires name in m
    ensures name in ScanFile(m, f, capName) && m[name] <= ScanFile(m, f, capName)[name]
  {
    if f.result.Captured? {
      var caps := f.result.captures;
      AddCapturesHits(m, caps, |caps|, capName, f.path, name);
      AddCapturesKeys(m, caps, |caps|, capName, f.path, name);
    }
  }

  /** Adding files to a batch keeps every key of its map and extends every list. */
  lemma OnlyAppends(files: seq<FileScan>, more: seq<FileScan>, capName: string, name: string)
    requires name in ScanAll(files, capName)
    ensures name in ScanAll(files + more, capName)
    ensures ScanAll(files, capName)[name] <= ScanAll(files + more, capName)[name]
  {
    ScanGrows(files, more, |more|, capName, name);
  }

  /** A failed file is skipped: the batch gives the same map as without it. */
  lemma FailedSkipped(files: seq<FileScan>, path: string, more: seq<FileScan>, capName: string)
    ensures ScanAll(files + [FileScan(path, Failed)] + more, capName) == ScanAll(files + more, capName)
  {
    var xs := files + [FileScan(path, Failed)] + more;
    var ys := files + more;
    var n := |files|;
    assert xs[..n] == files == ys[..n];
    ScanPrefix(xs, ys, n, capName);
    assert xs[n].result.Failed?;
    assert xs[n + 1..n + 1 + |more|] == more == ys[n..n + |more|];
    ScanSameFiles(xs, n + 1, ys, n, |more|, capName);
  }

  /** The loops of `pre_scan_*` over the files and over each file's captures. */
  method Scan(files: seq<FileScan>, capName: string) returns (importsMap: ImportsMap)
    ensures importsMap == ScanAll(files, capName)
  {
    importsMap := map[];
    var i := 0;
    while i < |files|
      invariant 0 <= i <= |files|
      invariant importsMap == ScanUpTo(files, i, capName)
    {
      var f := files[i];
      if f.result.Captured? {
        var caps := f.result.captures;
        ghost var start := importsMap;
        var j := 0;
        while j < |caps|
          invariant 0 <= j <= |caps|
          invariant importsMap == AddCaptures(start, caps, j, capName, f.path)
        {
          if caps[j].capName == capName {
            var name := caps[j].text;
            if name !in importsMap {
              importsMap := importsMap[name := []];
            }
            importsMap := importsMap[name := importsMap[name] + [f.path]];
          }
          j := j + 1;
        }
      }
      i := i + 1;
    }
  }

  /** `pre_scan_elixir` over the scanned batch. */
  method PreScanElixir(files: seq<FileScan>) returns (importsMap: ImportsMap)
    ensures forall name :: Lookup(importsMap, name) == Occurrences(files, ElixirCapture, name)
    ensures forall name :: name in importsMap <==> Occurrences(files, ElixirCapture, name) != []
  {
    importsMap := Scan(files, ElixirCapture);
    forall name
      ensures Lookup(importsMap, name) == Occurrences(files, ElixirCapture, name)
      ensures name in importsMap <==> Occurrences(files, ElixirCapture, name) != []
    {
      ScanAllOccurrences(files, ElixirCapture, name);
    }
  }

  /** `pre_scan_heex` over the scanned batch. */
  method PreScanHeex(files: seq<FileScan>) returns (importsMap: ImportsMap)
    ensures forall name :: Lookup(importsMap, name) == Occurrences(files, HeexCapture, name)
    ensures forall name :: name in importsMap <==> Occurrences(files, HeexCapture, name) != []
  {
    importsMap := Scan(files, HeexCapture);
    forall name
      ensures Lookup(importsMap, name) == Occurrences(files, HeexCapture, name)
      ensures name in importsMap <==> Occurrences(files, HeexCapture, name) != []
    {
      ScanAllOccurrences(files, HeexCapture, name);
    }
  }
}
