/**
 * The schema migration runner (healthQue-backend/migrate.js).  A migration
 * file is cut into statements: comment lines (those whose trimmed text
 * starts with `--`) are dropped, the rest is split at every `;`, and the
 * pieces are trimmed, empty ones discarded.  The runner applies the `.sql`
 * files of the migrations directory in name order, skipping those the
 * `migrations` table already names, and records a file's name there once all
 * of its statements have run.
 *
 * The database is the class `Database`: the names in the `migrations` table
 * and the statements it has run, in order.  Which statements the server
 * refuses is the parameter `rejects`; the directory listing and the file
 * contents are the parameters `files` and `contents`.
 */
module Migrate {
  import opened JsText
  import opened JsArray
  import opened Sorting

  // ---------------------------------------------------------------- splitting

  /** A line whose trimmed text starts with `--`. */
  predicate IsCommentLine(line: string) {
    StartsWith(Trim(line), "--")
  }

  const KeepLine: string -> bool := line => !IsCommentLine(line)

  /** The file without its comment lines. */
  function Cleaned(sql: string): string {
    Join(Filter(Split(sql, '\n'), KeepLine), "\n")
  }

  function TrimAll(pieces: seq<string>): (r: seq<string>)
    ensures |r| == |pieces| && forall i :: 0 <= i < |r| ==> r[i] == Trim(pieces[i])
  {
    seq(|pieces|, i requires 0 <= i < |pieces| => Trim(pieces[i]))
  }

  const NonEmpty: string -> bool := s => |s| > 0

  /** `text.split(';').map(s => s.trim()).filter(s => s.length > 0)`. */
  function SplitStatements(text: string): seq<string> {
    Filter(TrimAll(Split(text, ';')), NonEmpty)
  }

  /** The statements a migration file runs, in order. */
  function Statements(sql: string): seq<string> {
    SplitStatements(Cleaned(sql))
  }

  /** A statement as the splitter hands it out: not empty, trimmed, and
      without a `;`. */
  predicate CleanStatement(s: string) {
    s != [] && Trim(s) == s && forall i :: 0 <= i < |s| ==> s[i] != ';'
  }

  /** No statement the runner executes is empty, and none holds a `;` or
      surrounding white space. */
  lemma StatementsAreClean(sql: string)
    ensures forall s :: s in Statements(sql) ==> CleanStatement(s)
  {
    SplitStatementsClean(Cleaned(sql));
  }

  lemma SplitStatementsClean(text: string)
    ensures forall s :: s in SplitStatements(text) ==> CleanStatement(s)
  {
    SplitPiecesLackSeparator(text, ';');
    TrimmedPiecesClean(Split(text, ';'));
  }

  lemma TrimmedPiecesClean(pieces: seq<string>)
    requires forall k, i :: 0 <= k < |pieces| && 0 <= i < |pieces[k]| ==> pieces[k][i] != ';'
    ensures forall s :: s in Filter(TrimAll(pieces), NonEmpty) ==> CleanStatement(s)
  {
    var t := TrimAll(pieces);
    forall s | s in Filter(t, NonEmpty) ensures CleanStatement(s) {
      assert s in t && NonEmpty(s);
      var k :| 0 <= k < |t| && t[k] == s;
      TrimIdempotent(pieces[k]);
      var a := TrimSlice(pieces[k]);
      forall i | 0 <= i < |s| ensures s[i] != ';' {
        assert s[i] == pieces[k][a + i];
      }
    }
  }

  /** Comment lines are dropped and every other line is kept as it is: for a
      file made of `lines`, the cleaned text is the other lines joined again. */
  lemma CommentLinesDropped(lines: seq<string>)
    requires |lines| >= 1
    requires forall k, i :: 0 <= k < |lines| && 0 <= i < |lines[k]| ==> lines[k][i] != '\n'
    ensures Cleaned(Join(lines, "\n")) == Join(Filter(lines, KeepLine), "\n")
  {
    SplitJoin(lines, '\n');
  }

  /** Statements joined with `;` are split back into the same statements. */
  lemma SplitStatementsRoundTrip(stmts: seq<string>)
    requires |stmts| >= 1
    requires forall k :: 0 <= k < |stmts| ==> CleanStatement(stmts[k])
    ensures SplitStatements(Join(stmts, ";")) == stmts
  {
    SplitJoin(stmts, ';');
    var t := TrimAll(stmts);
    assert t == stmts;
    FilterKeepsAll(stmts, NonEmpty);
  }

  /** A comment line among the statements changes nothing: a file holding
      the statements on one line and a comment line under it runs exactly
      those statements. */
  lemma CommentedFileRunsItsStatements(stmts: seq<string>, comment: string)
    requires |stmts| >= 1
    requires forall k :: 0 <= k < |stmts| ==> CleanStatement(stmts[k])
    requires forall k, i :: 0 <= k < |stmts| && 0 <= i < |stmts[k]| ==> stmts[k][i] != '\n'
    requires !IsCommentLine(Join(stmts, ";"))
    requires IsCommentLine(comment) && forall i :: 0 <= i < |comment| ==> comment[i] != '\n'
    ensures Statements(Join(stmts, ";") + "\n" + comment) == stmts
  {
    var line := Join(stmts, ";");
    forall i | 0 <= i < |line| ensures line[i] != '\n' {
      JoinLacks(stmts, ";", '\n', i);
    }
    assert Join([line, comment], "\n") == line + "\n" + comment;
    CommentLinesDropped([line, comment]);
    assert Filter([line, comment], KeepLine) == [line] by {
      assert [line, comment][1..] == [comment];
      assert [comment][1..] == [];
    }
    SplitStatementsRoundTrip(stmts);
  }

  /** A character that neither the parts nor the separator hold is not in
      the joined text. */
  lemma {:induction false} JoinLacks(parts: seq<string>, sep: string, c: char, i: int)
    requires forall k, j :: 0 <= k < |parts| && 0 <= j < |parts[k]| ==> parts[k][j] != c
    requires forall j :: 0 <= j < |sep| ==> sep[j] != c
    requires 0 <= i < |Join(parts, sep)|
    ensures Join(parts, sep)[i] != c
    decreases |parts|
  {
    if |parts| > 1 {
      var head := parts[0] + sep;
      if i >= |head| {
        JoinLacks(parts[1..], sep, c, i - |head|);
      }
    }
  }

  // ------------------------------------------------------------------ ordering

  predicate IsSqlFile(name: string) {
    |name| >= 4 && name[|name| - 4..] == ".sql"
  }

  const SqlOnly: string -> bool := name => IsSqlFile(name)

  /** `files.filter(f => f.endsWith('.sql')).sort()`. */
  function SqlFiles(files: seq<string>): seq<string> {
    SortBy(Filter(files, SqlOnly), (f: string) => f, LexLe)
  }

  function NotIn(done: set<string>): string -> bool {
    f => f !in done
  }

  /** The names of the list that are not in `done`, in list order. */
  function Unapplied(names: seq<string>, done: set<string>): seq<string>
    decreases |names|
  {
    if names == [] then []
    else
      var last := names[|names| - 1];
      Unapplied(names[..|names| - 1], done) + (if last in done then [] else [last])
  }

  /** `Unapplied` is the list filtered by `f => !done.has(f)`. */
  lemma {:induction false} UnappliedIsFilter(names: seq<string>, done: set<string>)
    ensures Unapplied(names, done) == Filter(names, NotIn(done))
    decreases |names|
  {
    if names != [] {
      var init := names[..|names| - 1];
      UnappliedIsFilter(init, done);
      FilterStep(names, |names| - 1, NotIn(done));
      assert names[..|names|] == names;
    }
  }

  /** The files a run applies, in the order it applies them. */
  function Pending(files: seq<string>, done: set<string>): seq<string> {
    Unapplied(SqlFiles(files), done)
  }

  /** The `.sql` files of the listing, in name order. */
  lemma SqlFilesSorted(files: seq<string>)
    ensures forall f :: f in SqlFiles(files) <==> f in files && IsSqlFile(f)
    ensures InOrderBy(SqlFiles(files), LexLe)
  {
    var sql := Filter(files, SqlOnly);
    var sorted := SqlFiles(files);
    LexLeTotalPreorder();
    SortBySorted(sql, (f: string) => f, LexLe);
    forall f ensures f in sorted <==> f in sql {
      assert f in sorted <==> f in multiset(sorted);
    }
    forall i, j | 0 <= i < j < |sorted| ensures LexLe(sorted[i], sorted[j]) {
      assert ((f: string) => f)(sorted[i]) == sorted[i];
      assert ((f: string) => f)(sorted[j]) == sorted[j];
    }
  }

  /** A run applies exactly the `.sql` files not applied yet, each once, in
      name order. */
  lemma PendingFiles(files: seq<string>, done: set<string>)
    ensures forall f :: f in Pending(files, done) <==> f in files && IsSqlFile(f) && f !in done
    ensures InOrderBy(Pending(files, done), LexLe)
  {
    SqlFilesSorted(files);
    UnappliedIsFilter(SqlFiles(files), done);
    FilterKeepsOrder(SqlFiles(files), LexLe, NotIn(done));
  }

  /** Once every pending file is recorded, a second run finds nothing to do. */
  lemma SecondRunIsEmpty(files: seq<string>, done: set<string>)
    ensures Pending(files, done + set f | f in Pending(files, done)) == []
  {
    var done2 := done + set f | f in Pending(files, done);
    var sorted := SqlFiles(files);
    PendingFiles(files, done);
    SqlFilesSorted(files);
    forall i | 0 <= i < |sorted| ensures !NotIn(done2)(sorted[i]) {
      assert sorted[i] in sorted;
    }
    FilterNone(sorted, NotIn(done2));
    UnappliedIsFilter(sorted, done2);
  }
}
