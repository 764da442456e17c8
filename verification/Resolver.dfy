/** Row numbering and de-duplication of orchestrator/deps/resolver.py. Where a path leads is a
    parameter: the file system is not modelled. */
module Resolver {
  import opened Text
  import opened SnapshotTypes
  import opened Ordering
  import opened ContentSnapshot

  /** What `workspace / relpath` leads to. */
  datatype Located = Missing | Escapes | At(target: string)

  datatype ResolveError = GlobMagic | EscapesWorkspace | InvalidRow

  /** Files in order of first use, missing required entries, and one row per entry. */
  datatype Resolution = Resolution(files: seq<string>, missing: seq<string>, rows: seq<Row>)

  /** A pattern with its expansion and the (lexical path, canonical target) matches that `glob` found, in any order. */
  datatype Pattern = Pattern(text: string, expanded: string, found: seq<(string, string)>)

  predicate HasMagic(path: string) {
    '*' in path || '?' in path || '[' in path
  }

  function AddFile(files: seq<string>, file: string): seq<string> {
    if file in files then files else files + [file]
  }

  predicate NoRepeats(files: seq<string>) {
    forall i, j :: 0 <= i < j < |files| ==> files[i] != files[j]
  }

  /** Rows of one role numbered from `start`. */
  predicate Numbered(rows: seq<Row>, role: Role, start: nat) {
    forall i :: 0 <= i < |rows| ==> rows[i].role == role && rows[i].authoredIndex == start + i
  }

  /** Some row has this target. */
  ghost predicate Targeted(rows: seq<Row>, file: string) {
    exists i :: 0 <= i < |rows| && rows[i].target == Some(file)
  }

  /** `files` lists exactly the targets of `rows`, each once. */
  ghost predicate ListsTargets(files: seq<string>, rows: seq<Row>) {
    NoRepeats(files) && forall f :: f in files <==> Targeted(rows, f)
  }

  lemma TargetedStep(rows: seq<Row>, row: Row, file: string)
    ensures Targeted(rows + [row], file) <==> Targeted(rows, file) || row.target == Some(file)
  {
    var more := rows + [row];
    assert more[|rows|] == row && forall i :: 0 <= i < |rows| ==> more[i] == rows[i];
    if Targeted(rows, file) {
      var i :| 0 <= i < |rows| && rows[i].target == Some(file);
      assert more[i].target == Some(file);
    }
  }

  lemma ListsTargetsStep(files: seq<string>, rows: seq<Row>, row: Row)
    requires ListsTargets(files, rows)
    ensures ListsTargets(if row.target.Some? then AddFile(files, row.target.value) else files, rows + [row])
  {
    forall f
      ensures Targeted(rows + [row], f) <==> Targeted(rows, f) || row.target == Some(f)
    {
      TargetedStep(rows, row, f);
    }
  }

  /** The row that entry `index` becomes. */
  function ExactRow(entry: (string, string), role: Role, index: nat, locate: string -> Located): Row {
    Row(role, index, entry.0, entry.1,
        if locate(entry.1).At? then Some(locate(entry.1).target) else None)
  }

  predicate ExactOk(entry: (string, string), role: Role, index: nat, locate: string -> Located) {
    && !HasMagic(entry.1)
    && !locate(entry.1).Escapes?
    && ValidRow(ExactRow(entry, role, index, locate))
  }

  /** No required row lacks its target. */
  predicate NoneMissing(role: Role, rows: seq<Row>) {
    role == Optional || forall row :: row in rows ==> row.target.Some?
  }

  lemma NoneMissingStep(role: Role, rows: seq<Row>, row: Row)
    ensures NoneMissing(role, rows + [row]) <==> NoneMissing(role, rows) && (role == Optional || row.target.Some?)
  {
    assert row in rows + [row];
    assert forall other :: other in rows ==> other in rows + [row];
  }

  /** The paths of the rows without a target, in order. */
  function Untargeted(rows: seq<Row>): seq<string> {
    if rows == [] then []
    else Untargeted(rows[..|rows| - 1]) +
         (if rows[|rows| - 1].target.None? then [rows[|rows| - 1].evaluatedRelpath] else [])
  }

  /** The targets of the rows, in order. */
  function RowTargets(rows: seq<Row>): seq<string> {
    if rows == [] then []
    else RowTargets(rows[..|rows| - 1]) +
         (if rows[|rows| - 1].target.Some? then [rows[|rows| - 1].target.value] else [])
  }

  lemma RowListsStep(rows: seq<Row>, row: Row)
    ensures Untargeted(rows + [row]) == if row.target.None? then Untargeted(rows) + [row.evaluatedRelpath] else Untargeted(rows)
    ensures RowTargets(rows + [row]) == if row.target.Some? then RowTargets(rows) + [row.target.value] else RowTargets(rows)
  {
    assert (rows + [row])[..|rows|] == rows;
  }

  /** `places` increases and stays below `limit`. */
  ghost predicate Increasing(places: seq<nat>, limit: nat) {
    && (forall k :: 0 <= k < |places| ==> places[k] < limit)
    && (forall k, l :: 0 <= k < l < |places| ==> places[k] < places[l])
  }

  /** `paths` are those of the rows at `places`, which are exactly the rows without a target, in order. */
  ghost predicate PathsAt(paths: seq<string>, places: seq<nat>, rows: seq<Row>) {
    && |places| == |paths| && Increasing(places, |rows|)
    && (forall k :: 0 <= k < |places| ==> rows[places[k]].target.None? && rows[places[k]].evaluatedRelpath == paths[k])
    && (forall i :: 0 <= i < |rows| && rows[i].target.None? ==> i in places)
  }

  lemma PathsAtStep(paths: seq<string>, places: seq<nat>, rows: seq<Row>, row: Row)
    requires PathsAt(paths, places, rows)
    ensures row.target.Some? ==> PathsAt(paths, places, rows + [row])
    ensures row.target.None? ==> PathsAt(paths + [row.evaluatedRelpath], places + [|rows|], rows + [row])
  {
    var more := places + [|rows|];
    assert more[|places|] == |rows| && forall i :: i in places ==> i in more;
  }

  /** The missing paths are those of the rows without a target: all of them, each at its place. */
  lemma {:induction false} UntargetedInOrder(rows: seq<Row>) returns (places: seq<nat>)
    ensures PathsAt(Untargeted(rows), places, rows)
  {
    places := [];
    if rows != [] {
      var front, last := rows[..|rows| - 1], rows[|rows| - 1];
      var before := UntargetedInOrder(front);
      assert rows == front + [last];
      PathsAtStep(Untargeted(front), before, front, last);
      places := if last.target.None? then before + [|front|] else before;
    }
  }

  lemma {:induction false} UntargetedConcat(a: seq<Row>, b: seq<Row>)
    ensures Untargeted(a + b) == Untargeted(a) + Untargeted(b)
  {
    if b == [] {
      assert a + b == a;
    } else {
      var front, last := b[..|b| - 1], b[|b| - 1];
      UntargetedConcat(a, front);
      assert b == front + [last] && a + b == (a + front) + [last];
      RowListsStep(a + front, last);
    }
  }

  /** What either route returns: numbered rows, their targets as files without repetition, and as missing the paths of
      the required rows without a target, in order. */
  ghost predicate Resolved(r: Resolution, role: Role) {
    && Numbered(r.rows, role, 0) && ListsTargets(r.files, r.rows)
    && r.missing == (if role == Required then Untargeted(r.rows) else [])
    && (r.missing == [] <==> NoneMissing(role, r.rows))
  }

  lemma {:induction false} UntargetedMeansMissing(rows: seq<Row>)
    ensures Untargeted(rows) == [] <==> NoneMissing(Required, rows)
  {
    if rows != [] {
      UntargetedMeansMissing(rows[..|rows| - 1]);
      assert rows == rows[..|rows| - 1] + [rows[|rows| - 1]];
      NoneMissingStep(Required, rows[..|rows| - 1], rows[|rows| - 1]);
    }
  }

  /** The lists of the rows so far. */
  ghost predicate ExactLists(role: Role, rows: seq<Row>, files: seq<string>, missing: seq<string>) {
    && ListsTargets(files, rows)
    && files == Unique(RowTargets(rows))
    && missing == if role == Required then Untargeted(rows) else []
  }

  lemma ExactListsStep(role: Role, rows: seq<Row>, files: seq<string>, missing: seq<string>, row: Row)
    requires ExactLists(role, rows, files, missing)
    ensures ExactLists(role, rows + [row],
                       if row.target.Some? then AddFile(files, row.target.value) else files,
                       if row.target.None? && role == Required then missing + [row.evaluatedRelpath] else missing)
  {
    ListsTargetsStep(files, rows, row);
    RowListsStep(rows, row);
    if row.target.Some? {
      UniqueStep(RowTargets(rows), row.target.value);
    }
  }

  /** `_resolve_exact_rows`. */
  method ResolveExactRows(entries: seq<(string, string)>, role: Role, locate: string -> Located)
    returns (r: Result<Resolution, ResolveError>)
    ensures r.Ok? <==> forall i :: 0 <= i < |entries| ==> ExactOk(entries[i], role, i, locate)
    ensures r.Ok? ==>
              && |r.value.rows| == |entries|
              && (forall i :: 0 <= i < |entries| ==> r.value.rows[i] == ExactRow(entries[i], role, i, locate))
              && Resolved(r.value, role) && r.value.files == Unique(RowTargets(r.value.rows))
  {
    var files: seq<string>, missing: seq<string>, rows: seq<Row> := [], [], [];
    for index := 0 to |entries|
      invariant ExactDone(entries, role, locate, index, rows)
      invariant ExactLists(role, rows, files, missing)
    {
      var checked := CheckExactEntry(entries[index], role, index, locate);
      if checked.Err? {
        return Err(checked.error);
      }
      var row := checked.value;
      ExactDoneStep(entries, role, locate, index, rows);
      ExactListsStep(role, rows, files, missing, row);
      if row.target.Some? {
        files := AddFile(files, row.target.value);
      } else if role == Required {
        missing := missing + [entries[index].1];
      }
      rows := rows + [row];
    }
    UntargetedMeansMissing(rows);
    r := Ok(Resolution(files, missing, rows));
  }

  /** The checks on one exact entry, and its row. */
  method CheckExactEntry(entry: (string, string), role: Role, index: nat, locate: string -> Located)
    returns (r: Result<Row, ResolveError>)
    ensures r.Ok? <==> ExactOk(entry, role, index, locate)
    ensures r.Ok? ==> r.value == ExactRow(entry, role, index, locate)
  {
    if HasMagic(entry.1) {
      return Err(GlobMagic);
    }
    var found := locate(entry.1);
    if found.Escapes? {
      return Err(EscapesWorkspace);
    }
    var row := Row(role, index, entry.0, entry.1, if found.At? then Some(found.target) else None);
    r := if ValidRow(row) then Ok(row) else Err(InvalidRow);
  }

  /** The first `n` entries are fine and have their rows. */
  ghost predicate ExactDone(entries: seq<(string, string)>, role: Role, locate: string -> Located, n: nat, rows: seq<Row>) {
    && n <= |entries| && |rows| == n
    && forall i :: 0 <= i < n ==> ExactOk(entries[i], role, i, locate) && rows[i] == ExactRow(entries[i], role, i, locate)
  }

  lemma ExactDoneStep(entries: seq<(string, string)>, role: Role, locate: string -> Located, n: nat, rows: seq<Row>)
    requires ExactDone(entries, role, locate, n, rows) && n < |entries| && ExactOk(entries[n], role, n, locate)
    ensures ExactDone(entries, role, locate, n + 1, rows + [ExactRow(entries[n], role, n, locate)])
  {
  }

  // ---- Patterns

  /** The matches of a pattern in the order of its rows. */
  function Matches(p: Pattern): (m: seq<(string, string)>)
    ensures |m| == |p.found|
  {
    SortByElements(p.found, PairLess);
    SortBy(p.found, PairLess)
  }

  /** The rows follow the sorted matches and the files the sorted targets; both are permutations of what was found. */
  lemma MatchesAreSorted(p: Pattern)
    ensures SortedBy(Matches(p), PairLess) && multiset(Matches(p)) == multiset(p.found)
    ensures var files := SortBy(TargetsOf(p.found), Less);
            SortedBy(files, Less) && multiset(files) == multiset(TargetsOf(p.found))
  {
    PairLessOrders();
    LessOrders();
    SortBySorted(p.found, PairLess);
    SortByMembers(p.found, PairLess);
    SortBySorted(TargetsOf(p.found), Less);
    SortByMembers(TargetsOf(p.found), Less);
  }

  /** The two orders can differ: two links whose targets sort the other way round. */
  lemma OrdersCanDiffer()
    ensures var p := Pattern("*", "*", [("a", "z"), ("b", "y")]);
            Matches(p) == [("a", "z"), ("b", "y")] && SortBy(TargetsOf(p.found), Less) == ["y", "z"]
  {
    SortOfTwo(("a", "z"), ("b", "y"), PairLess);
    SortOfTwo("z", "y", Less);
    assert TargetsOf([("a", "z"), ("b", "y")]) == ["z", "y"];
  }

  lemma SortOfTwo<T>(a: T, b: T, less: (T, T) -> bool)
    ensures SortBy([a, b], less) == if less(b, a) then [b, a] else [a, b]
  {
    assert [a, b][..1] == [a] && [a][..0] == [];
    assert SortBy([a], less) == [a];
    assert InsertBy([a], b, less) == if less(b, a) then InsertBy([], b, less) + [a] else [a, b];
  }

  function TargetsOf(found: seq<(string, string)>): (t: seq<string>)
    ensures |t| == |found| && forall i :: 0 <= i < |t| ==> t[i] == found[i].1
  {
    seq(|found|, i requires 0 <= i < |found| => found[i].1)
  }

  /** The rows of one pattern: one per match, or a single absent row. */
  function PatternRows(p: Pattern, role: Role, start: nat): (rows: seq<Row>)
    ensures |rows| == if p.found == [] then 1 else |p.found|
    ensures Numbered(rows, role, start)
  {
    if p.found == [] then [Row(role, start, p.text, p.expanded, None)]
    else seq(|p.found|, i requires 0 <= i < |p.found| =>
               Row(role, start + i, p.text, Matches(p)[i].0, Some(Matches(p)[i].1)))
  }

  /** The rows of the patterns from `p` on, numbered from `start`. */
  function AllPatternRows(patterns: seq<Pattern>, role: Role, p: nat, start: nat): seq<Row>
    decreases |patterns| - p
  {
    if p >= |patterns| then []
    else
      var first := PatternRows(patterns[p], role, start);
      first + AllPatternRows(patterns, role, p + 1, start + |first|)
  }

  /** The targets of the patterns from `p` on, each pattern's in its own sorted order. */
  function AllTargets(patterns: seq<Pattern>, p: nat): seq<string>
    decreases |patterns| - p
  {
    if p >= |patterns| then [] else SortBy(TargetsOf(patterns[p].found), Less) + AllTargets(patterns, p + 1)
  }

  /** The expansions of the patterns from `p` on without a match. */
  function Unmatched(patterns: seq<Pattern>, p: nat): seq<string>
    decreases |patterns| - p
  {
    if p >= |patterns| then []
    else (if patterns[p].found == [] then [patterns[p].expanded] else []) + Unmatched(patterns, p + 1)
  }

  /** The files in order of first use. */
  function Unique(files: seq<string>): seq<string> {
    if files == [] then [] else AddFile(Unique(files[..|files| - 1]), files[|files| - 1])
  }

  lemma UniqueStep(files: seq<string>, file: string)
    ensures Unique(files + [file]) == AddFile(Unique(files), file)
  {
    assert (files + [file])[..|files|] == files;
  }

  /** `unique` lists the files at `places`, which are exactly the first uses, in order. */
  ghost predicate FirstUses(unique: seq<string>, places: seq<nat>, files: seq<string>) {
    && |places| == |unique| && Increasing(places, |files|)
    && (forall k :: 0 <= k < |places| ==> files[places[k]] == unique[k])
    && (forall i :: 0 <= i < |files| && files[i] !in files[..i] ==> i in places)
  }

  lemma FirstUsesStep(unique: seq<string>, places: seq<nat>, files: seq<string>, file: string)
    requires FirstUses(unique, places, files)
    ensures file in files ==> FirstUses(unique, places, files + [file])
    ensures file !in files ==> FirstUses(unique + [file], places + [|files|], files + [file])
  {
    var all, more := files + [file], places + [|files|];
    assert more[|places|] == |files| && forall i :: i in places ==> i in more;
    forall i | 0 <= i < |all| && all[i] !in all[..i]
      ensures i < |files| ==> i in places
      ensures i == |files| ==> file !in files
    {
      assert i < |files| ==> all[..i] == files[..i];
      assert i == |files| ==> all[..i] == files;
    }
  }

  /** Files without repetition, in order of first use. */
  lemma {:induction false} UniqueInOrder(files: seq<string>) returns (places: seq<nat>)
    ensures FirstUses(Unique(files), places, files)
  {
    places := [];
    if files != [] {
      var front, last := files[..|files| - 1], files[|files| - 1];
      var before := UniqueInOrder(front);
      UniqueKeeps(front);
      assert files == front + [last];
      FirstUsesStep(Unique(front), before, front, last);
      places := if last in front then before else before + [|front|];
    }
  }

  lemma {:induction false} UniqueKeeps(files: seq<string>)
    ensures NoRepeats(Unique(files)) && forall f :: f in Unique(files) <==> f in files
  {
    if files != [] {
      UniqueKeeps(files[..|files| - 1]);
      assert files == files[..|files| - 1] + [files[|files| - 1]];
    }
  }

  lemma {:induction false} AllPatternRowsNumbered(patterns: seq<Pattern>, role: Role, p: nat, start: nat)
    ensures Numbered(AllPatternRows(patterns, role, p, start), role, start)
    decreases |patterns| - p
  {
    if p < |patterns| {
      AllPatternRowsNumbered(patterns, role, p + 1, start + |PatternRows(patterns[p], role, start)|);
    }
  }

  /** The rows of a pattern have its targets. */
  lemma PatternTargets(p: Pattern, role: Role, start: nat, file: string)
    ensures Targeted(PatternRows(p, role, start), file) <==> file in SortBy(TargetsOf(p.found), Less)
  {
    var rows, targets := PatternRows(p, role, start), TargetsOf(p.found);
    SortByElements(targets, Less);
    SortByElements(p.found, PairLess);
    if file in targets {
      var i :| 0 <= i < |targets| && targets[i] == file;
      assert p.found[i] in Matches(p);
      var j :| 0 <= j < |Matches(p)| && Matches(p)[j] == p.found[i];
      assert rows[j].target == Some(file);
    }
    if Targeted(rows, file) {
      var j :| 0 <= j < |rows| && rows[j].target == Some(file);
      assert Matches(p)[j] in p.found;
      var i :| 0 <= i < |p.found| && p.found[i] == Matches(p)[j];
      assert targets[i] == file;
    }
  }

  lemma TargetedConcat(a: seq<Row>, b: seq<Row>, file: string)
    ensures Targeted(a + b, file) <==> Targeted(a, file) || Targeted(b, file)
  {
    if Targeted(a, file) {
      var i :| 0 <= i < |a| && a[i].target == Some(file);
      assert (a + b)[i].target == Some(file);
    }
    if Targeted(b, file) {
      var i :| 0 <= i < |b| && b[i].target == Some(file);
      assert (a + b)[|a| + i].target == Some(file);
    }
  }

  lemma {:induction false} AllTargetsTargeted(patterns: seq<Pattern>, role: Role, p: nat, start: nat, file: string)
    ensures Targeted(AllPatternRows(patterns, role, p, start), file) <==> file in AllTargets(patterns, p)
    decreases |patterns| - p
  {
    if p < |patterns| {
      var first := PatternRows(patterns[p], role, start);
      AllTargetsTargeted(patterns, role, p + 1, start + |first|, file);
      PatternTargets(patterns[p], role, start, file);
      TargetedConcat(first, AllPatternRows(patterns, role, p + 1, start + |first|), file);
    }
  }

  /** A pattern without a match is exactly what leaves a row without its target. */
  lemma {:induction false} UnmatchedAreMissing(patterns: seq<Pattern>, role: Role, p: nat, start: nat)
    ensures Untargeted(AllPatternRows(patterns, role, p, start)) == Unmatched(patterns, p)
    decreases |patterns| - p
  {
    if p < |patterns| {
      var first := PatternRows(patterns[p], role, start);
      UnmatchedAreMissing(patterns, role, p + 1, start + |first|);
      UntargetedConcat(first, AllPatternRows(patterns, role, p + 1, start + |first|));
      PatternMissing(patterns[p], role, start);
    }
  }

  lemma PatternMissing(p: Pattern, role: Role, start: nat)
    ensures Untargeted(PatternRows(p, role, start)) == if p.found == [] then [p.expanded] else []
  {
    var rows := PatternRows(p, role, start);
    if p.found == [] {
      assert rows[..0] == [];
    } else {
      AllTargetedRows(rows);
    }
  }

  lemma {:induction false} AllTargetedRows(rows: seq<Row>)
    requires forall i :: 0 <= i < |rows| ==> rows[i].target.Some?
    ensures Untargeted(rows) == []
  {
    if rows != [] {
      AllTargetedRows(rows[..|rows| - 1]);
    }
  }

  predicate AllValid(rows: seq<Row>) {
    forall row :: row in rows ==> ValidRow(row)
  }

  lemma AllValidConcat(a: seq<Row>, b: seq<Row>)
    ensures AllValid(a + b) <==> AllValid(a) && AllValid(b)
  {
    assert forall row :: row in a + b <==> row in a || row in b;
  }

  /** `rows` holds the first `m` of the rows `added`, all of which are valid. */
  ghost predicate PatternDone(start: seq<Row>, added: seq<Row>, m: nat, rows: seq<Row>) {
    m <= |added| && rows == start + added[..m] && forall i :: 0 <= i < m ==> ValidRow(added[i])
  }

  lemma PatternDoneStep(start: seq<Row>, added: seq<Row>, m: nat, rows: seq<Row>)
    requires PatternDone(start, added, m, rows) && m < |added| && ValidRow(added[m])
    ensures PatternDone(start, added, m + 1, rows + [added[m]])
  {
    assert added[..m + 1] == added[..m] + [added[m]];
    assert start + added[..m + 1] == (start + added[..m]) + [added[m]];
  }

  lemma PatternDoneAll(start: seq<Row>, added: seq<Row>, rows: seq<Row>)
    requires PatternDone(start, added, |added|, rows)
    ensures rows == start + added && AllValid(added)
  {
    assert added[..|added|] == added;
  }

  /** The rows that one pattern adds; an invalid row raises. */
  method AddPattern(rows: seq<Row>, pattern: Pattern, role: Role) returns (ok: bool, moreRows: seq<Row>)
    ensures ok <==> AllValid(PatternRows(pattern, role, |rows|))
    ensures ok ==> moreRows == rows + PatternRows(pattern, role, |rows|)
  {
    moreRows := rows;
    var matches := Matches(pattern);
    ghost var added := PatternRows(pattern, role, |rows|);
    assert rows + added[..0] == rows;
    for m := 0 to |matches|
      invariant PatternDone(rows, added, m, moreRows)
    {
      var row := Row(role, |moreRows|, pattern.text, matches[m].0, Some(matches[m].1));
      assert row == added[m];
      if !ValidRow(row) {
        assert row in added;
        ok := false;
        return;
      }
      PatternDoneStep(rows, added, m, moreRows);
      moreRows := moreRows + [row];
    }
    if matches == [] {
      var row := Row(role, |moreRows|, pattern.text, pattern.expanded, None);
      assert added == [row] && added[0] == row;
      if !ValidRow(row) {
        ok := false;
        return;
      }
      PatternDoneStep(rows, added, 0, moreRows);
      moreRows := moreRows + [row];
    }
    PatternDoneAll(rows, added, moreRows);
    ok := true;
  }

  /** The last loop: drop repeated files, keeping their order. */
  method DropRepeats(allFiles: seq<string>) returns (files: seq<string>)
    ensures files == Unique(allFiles)
  {
    files := [];
    var seen: set<string> := {};
    for i := 0 to |allFiles|
      invariant files == Unique(allFiles[..i]) && forall f :: f in seen <==> f in files
    {
      assert allFiles[..i + 1][..i] == allFiles[..i];
      if allFiles[i] !in seen {
        seen := seen + {allFiles[i]};
        files := files + [allFiles[i]];
      }
    }
    assert allFiles[..|allFiles|] == allFiles;
  }

  /** The rows, targets and missing expansions of the first `p` patterns, all rows being valid. */
  ghost predicate Progress(patterns: seq<Pattern>, role: Role, p: nat, r: Resolution) {
    PatternsDone(patterns, role, p, r.rows) && ListsDone(patterns, role, p, r.files, r.missing)
  }

  /** One pattern; an invalid row raises. */
  method AddNextPattern(patterns: seq<Pattern>, role: Role, p: nat, before: Resolution) returns (ok: bool, after: Resolution)
    requires Progress(patterns, role, p, before) && p < |patterns|
    ensures ok ==> Progress(patterns, role, p + 1, after)
    ensures !ok ==> !AllValid(AllPatternRows(patterns, role, 0, 0))
  {
    var pattern, rows := patterns[p], before.rows;
    PatternsStep(patterns, role, p, rows);
    ListsStep(patterns, role, p, before.files, before.missing);
    ok, rows := AddPattern(rows, pattern, role);
    var files := before.files + SortBy(TargetsOf(pattern.found), Less);
    var missing := if pattern.found == [] && role == Required then before.missing + [pattern.expanded] else before.missing;
    after := Resolution(files, missing, rows);
  }

  lemma NothingDone(patterns: seq<Pattern>, role: Role)
    ensures Progress(patterns, role, 0, Resolution([], [], []))
  {
  }

  /** `_resolve_patterns`, for matches inside the workspace. */
  method ResolvePatterns(patterns: seq<Pattern>, role: Role) returns (r: Result<Resolution, ResolveError>)
    ensures r.Ok? <==> AllValid(AllPatternRows(patterns, role, 0, 0))
    ensures r.Ok? ==>
              && r.value.rows == AllPatternRows(patterns, role, 0, 0)
              && r.value.files == Unique(AllTargets(patterns, 0))
              && r.value.missing == (if role == Required then Unmatched(patterns, 0) else [])
              && Resolved(r.value, role)
  {
    var all := Resolution([], [], []);
    NothingDone(patterns, role);
    for p := 0 to |patterns|
      invariant Progress(patterns, role, p, all)
    {
      var ok;
      ok, all := AddNextPattern(patterns, role, p, all);
      if !ok {
        return Err(InvalidRow);
      }
    }
    var files := DropRepeats(all.files);
    r := Ok(all.(files := files));
    PatternsFinish(patterns, role, all.files, r.value);
  }

  lemma PatternsFinish(patterns: seq<Pattern>, role: Role, allFiles: seq<string>, r: Resolution)
    requires PatternsDone(patterns, role, |patterns|, r.rows) && ListsDone(patterns, role, |patterns|, allFiles, r.missing)
    requires r.files == Unique(allFiles)
    ensures AllValid(AllPatternRows(patterns, role, 0, 0)) && r.rows == AllPatternRows(patterns, role, 0, 0)
    ensures r.files == Unique(AllTargets(patterns, 0))
    ensures r.missing == (if role == Required then Unmatched(patterns, 0) else []) && Resolved(r, role)
  {
    PatternsEnd(patterns, role, r.rows);
    ListsEnd(patterns, role, allFiles, r.missing);
    PatternsResolved(patterns, role, r);
  }

  /** `files` and `missing` are the targets and the unmatched required expansions of the first `p` patterns. */
  ghost predicate ListsDone(patterns: seq<Pattern>, role: Role, p: nat, files: seq<string>, missing: seq<string>) {
    && p <= |patterns|
    && AllTargets(patterns, 0) == files + AllTargets(patterns, p)
    && (role == Required ==> Unmatched(patterns, 0) == missing + Unmatched(patterns, p))
    && (role == Optional ==> missing == [])
  }

  lemma ListsStep(patterns: seq<Pattern>, role: Role, p: nat, files: seq<string>, missing: seq<string>)
    requires p < |patterns| && ListsDone(patterns, role, p, files, missing)
    ensures ListsDone(patterns, role, p + 1, files + SortBy(TargetsOf(patterns[p].found), Less),
                      if patterns[p].found == [] && role == Required then missing + [patterns[p].expanded] else missing)
  {
    Regroup(files, SortBy(TargetsOf(patterns[p].found), Less), AllTargets(patterns, p + 1));
    Regroup(missing, [patterns[p].expanded], Unmatched(patterns, p + 1));
    Regroup(missing, [], Unmatched(patterns, p + 1));
  }

  lemma Regroup(a: seq<string>, b: seq<string>, c: seq<string>)
    ensures a + (b + c) == (a + b) + c
    ensures b == [] ==> a + b == a
  {
  }

  lemma ListsEnd(patterns: seq<Pattern>, role: Role, files: seq<string>, missing: seq<string>)
    requires ListsDone(patterns, role, |patterns|, files, missing)
    ensures files == AllTargets(patterns, 0) && missing == if role == Required then Unmatched(patterns, 0) else []
  {
    assert files + [] == files && missing + [] == missing;
  }

  lemma PatternsResolved(patterns: seq<Pattern>, role: Role, r: Resolution)
    requires r.rows == AllPatternRows(patterns, role, 0, 0) && r.files == Unique(AllTargets(patterns, 0))
    requires r.missing == if role == Required then Unmatched(patterns, 0) else []
    ensures Resolved(r, role)
  {
    AllPatternRowsNumbered(patterns, role, 0, 0);
    UnmatchedAreMissing(patterns, role, 0, 0);
    UntargetedMeansMissing(r.rows);
    PatternsTargets(patterns, role, r);
  }

  lemma PatternsTargets(patterns: seq<Pattern>, role: Role, r: Resolution)
    requires r.rows == AllPatternRows(patterns, role, 0, 0) && r.files == Unique(AllTargets(patterns, 0))
    ensures ListsTargets(r.files, r.rows)
  {
    UniqueKeeps(AllTargets(patterns, 0));
    forall f
      ensures f in r.files <==> Targeted(r.rows, f)
    {
      AllTargetsTargeted(patterns, role, 0, 0, f);
    }
  }

  /** `rows` are the valid rows of the first `p` patterns. */
  ghost predicate PatternsDone(patterns: seq<Pattern>, role: Role, p: nat, rows: seq<Row>) {
    && p <= |patterns| && AllValid(rows)
    && AllPatternRows(patterns, role, 0, 0) == rows + AllPatternRows(patterns, role, p, |rows|)
  }

  lemma PatternsStep(patterns: seq<Pattern>, role: Role, p: nat, rows: seq<Row>)
    requires PatternsDone(patterns, role, p, rows) && p < |patterns|
    ensures var added := PatternRows(patterns[p], role, |rows|);
            if AllValid(added) then PatternsDone(patterns, role, p + 1, rows + added)
            else !AllValid(AllPatternRows(patterns, role, 0, 0))
  {
    var added := PatternRows(patterns[p], role, |rows|);
    var rest := AllPatternRows(patterns, role, p + 1, |rows| + |added|);
    ValidExtension(AllPatternRows(patterns, role, 0, 0), rows, added, rest);
  }

  lemma ValidExtension(all: seq<Row>, rows: seq<Row>, added: seq<Row>, rest: seq<Row>)
    requires all == rows + (added + rest) && AllValid(rows)
    ensures all == (rows + added) + rest && |rows + added| == |rows| + |added|
    ensures if AllValid(added) then AllValid(rows + added) else !AllValid(all)
  {
    AllValidConcat(rows, added);
    AllValidConcat(rows, added + rest);
    AllValidConcat(added, rest);
  }

  lemma PatternsEnd(patterns: seq<Pattern>, role: Role, rows: seq<Row>)
    requires PatternsDone(patterns, role, |patterns|, rows)
    ensures rows == AllPatternRows(patterns, role, 0, 0) && AllValid(rows)
  {
    assert rows + [] == rows;
  }

  // ---- Resolver rows always pass the snapshot's checks

  lemma {:induction false} NumberedCounts(rows: seq<Row>, role: Role, start: nat, other: Role, index: nat)
    requires Numbered(rows, role, start)
    ensures CountRole(rows, other) == if other == role then |rows| else 0
    ensures CountIdentity(rows, other, index)
         == if other == role && start <= index < start + |rows| then 1 else 0
  {
    if rows != [] {
      NumberedCounts(rows[1..], role, start + 1, other, index);
    }
  }

  lemma {:induction false} CountsAppend(a: seq<Row>, b: seq<Row>, role: Role, index: nat)
    ensures CountRole(a + b, role) == CountRole(a, role) + CountRole(b, role)
    ensures CountIdentity(a + b, role, index) == CountIdentity(a, role, index) + CountIdentity(b, role, index)
  {
    if a == [] {
      assert a + b == b;
    } else {
      CountsAppend(a[1..], b, role, index);
      assert (a + b)[1..] == a[1..] + b;
    }
  }

  /** Required rows followed by optional rows, each numbered from 0, are contiguous. */
  lemma ResolvedRowsContiguous(required: seq<Row>, optional: seq<Row>)
    requires Numbered(required, Required, 0) && Numbered(optional, Optional, 0)
    ensures Contiguous(required + optional)
  {
    forall role: Role, index: nat | index < CountRole(required + optional, role)
      ensures CountIdentity(required + optional, role, index) == 1
    {
      CountsAppend(required, optional, role, index);
      NumberedCounts(required, Required, 0, role, index);
      NumberedCounts(optional, Optional, 0, role, index);
    }
  }

  /** Either route: when nothing required is missing, the rows with one valid payload per target build a snapshot that
      passes every check; and when something is, they never do. */
  lemma ResolvedRowsBuild(required: Resolution, optional: Resolution, contents: seq<Content>)
    requires Resolved(required, Required) && Resolved(optional, Optional)
    requires forall c :: c in contents ==> ValidContent(c)
    requires PayloadsMatch(required.rows + optional.rows, PayloadMap(contents))
    ensures Contiguous(required.rows + optional.rows)
    ensures ValidSnapshot(Built(required.rows + optional.rows, PayloadMap(contents))) <==> required.missing == []
  {
    var rows := required.rows + optional.rows;
    ResolvedRowsContiguous(required.rows, optional.rows);
    BuiltSnapshotIsValid(rows, contents);
    MissingIsMissing(required.rows, optional.rows);
  }

  lemma MissingIsMissing(required: seq<Row>, optional: seq<Row>)
    requires Numbered(required, Required, 0) && Numbered(optional, Optional, 0)
    ensures RequiredMissing(required + optional) <==> !NoneMissing(Required, required)
  {
    var rows := required + optional;
    assert forall row :: row in rows <==> row in required || row in optional;
  }
}
