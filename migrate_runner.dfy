/**
 * The migration runner against a database: each file's statements run in
 * order, the file's name is recorded once they all succeed, and the
 * pending files are applied in name order until one fails.
 */
module MigrateRunner {
  import opened Migrate

  /** The position of the first statement the server refuses, or the
      number of statements when it refuses none. */
  function FirstRejected(stmts: seq<string>, rejects: set<string>): (r: nat)
    ensures r <= |stmts|
    ensures forall i :: 0 <= i < r ==> stmts[i] !in rejects
    ensures r < |stmts| ==> stmts[r] in rejects
    decreases |stmts|
  {
    if stmts == [] then 0
    else if stmts[0] in rejects then 0
    else 1 + FirstRejected(stmts[1..], rejects)
  }

  /** What is left of the list up to a name not yet applied is a proper
      prefix of what is left of the whole list. */
  lemma {:induction false} UnappliedPrefix(names: seq<string>, i: int, done: set<string>)
    requires 0 <= i < |names| && names[i] !in done
    ensures |Unapplied(names[..i], done)| < |Unapplied(names, done)|
    ensures Unapplied(names, done)[..|Unapplied(names[..i], done)|] == Unapplied(names[..i], done)
    decreases |names|
  {
    if i == |names| - 1 {
      assert names[..|names| - 1] == names[..i];
    } else {
      var init := names[..|names| - 1];
      UnappliedPrefix(init, i, done);
      assert init[..i] == names[..i];
    }
  }

  /** What is left of the list up to any point is a prefix of what is left
      of the whole list. */
  lemma {:induction false} UnappliedExtends(names: seq<string>, j: int, done: set<string>)
    requires 0 <= j <= |names|
    ensures |Unapplied(names[..j], done)| <= |Unapplied(names, done)|
    ensures Unapplied(names, done)[..|Unapplied(names[..j], done)|] == Unapplied(names[..j], done)
    decreases |names|
  {
    if j == |names| {
      assert names[..j] == names;
    } else {
      var init := names[..|names| - 1];
      UnappliedExtends(init, j, done);
      assert init[..j] == names[..j];
    }
  }

  /** The statements of a file, by name. */
  function StatementsOf(contents: string -> string): string -> seq<string> {
    name => Statements(contents(name))
  }

  /** The statements of the given files, one file after the other. */
  function AllStatements(names: seq<string>, ofFile: string -> seq<string>): seq<string>
    decreases |names|
  {
    if names == [] then []
    else AllStatements(names[..|names| - 1], ofFile) + ofFile(names[|names| - 1])
  }

  lemma AllStatementsSnoc(names: seq<string>, f: string, ofFile: string -> seq<string>)
    ensures AllStatements(names + [f], ofFile) == AllStatements(names, ofFile) + ofFile(f)
  {
    assert (names + [f])[..|names|] == names;
  }

  /** One more name considered: it is added when it is not in `done`. */
  lemma UnappliedStep(names: seq<string>, i: int, done: set<string>)
    requires 0 <= i < |names|
    ensures Unapplied(names[..i + 1], done)
            == Unapplied(names[..i], done) + (if names[i] in done then [] else [names[i]])
  {
    assert names[..i + 1][..i] == names[..i];
  }

  /** Stopping at a name not in `done` leaves a proper prefix applied. */
  lemma FailedAt(applied0: seq<string>, names: seq<string>, i: int, done: set<string>)
    requires 0 <= i < |names| && names[i] !in done
    ensures FailedPrefix(applied0, applied0 + Unapplied(names[..i], done), Unapplied(names, done))
  {
    UnappliedPrefix(names, i, done);
  }

  /** The server runs every statement of the file `f`. */
  predicate Accepted(f: string, ofFile: string -> seq<string>, rejects: set<string>) {
    FirstRejected(ofFile(f), rejects) == |ofFile(f)|
  }

  /** The position in `p` of the first file holding a statement the server
      refuses, or the number of files when there is none: the file whose
      `applyMigration` throws and ends the run. */
  function FirstFailing(p: seq<string>, ofFile: string -> seq<string>, rejects: set<string>): (k: nat)
    ensures k <= |p|
    ensures forall j :: 0 <= j < k ==> Accepted(p[j], ofFile, rejects)
    ensures k < |p| ==> !Accepted(p[k], ofFile, rejects)
    decreases |p|
  {
    if p == [] then 0
    else if !Accepted(p[0], ofFile, rejects) then 0
    else 1 + FirstFailing(p[1..], ofFile, rejects)
  }

  /** The first failing file is the one after a run of accepted files. */
  lemma FirstFailingAt(p: seq<string>, k: int, ofFile: string -> seq<string>, rejects: set<string>)
    requires 0 <= k <= |p|
    requires forall j :: 0 <= j < k ==> Accepted(p[j], ofFile, rejects)
    requires k < |p| ==> !Accepted(p[k], ofFile, rejects)
    ensures FirstFailing(p, ofFile, rejects) == k
  {
  }

  /** The statements the server runs when the files `p` are applied in
      order: all of those before the first failing file, then that file's
      statements before its first refused one. */
  function RunStatementsOf(p: seq<string>, ofFile: string -> seq<string>, rejects: set<string>): seq<string> {
    var k := FirstFailing(p, ofFile, rejects);
    AllStatements(p[..k], ofFile) + (if k < |p| then ofFile(p[k])[..FirstRejected(ofFile(p[k]), rejects)] else [])
  }

  /** When no file fails, the server runs every statement of every file. */
  lemma RunStatementsOfAccepted(p: seq<string>, ofFile: string -> seq<string>, rejects: set<string>)
    requires forall j :: 0 <= j < |p| ==> Accepted(p[j], ofFile, rejects)
    ensures RunStatementsOf(p, ofFile, rejects) == AllStatements(p, ofFile)
  {
    FirstFailingAt(p, |p|, ofFile, rejects);
    var k := FirstFailing(p, ofFile, rejects);
    assert k == |p|;
    assert p[..k] == p;
    assert RunStatementsOf(p, ofFile, rejects) == AllStatements(p[..k], ofFile) + [];
  }

  /** `applied` and `executed` hold what applying the files `p` in order
      adds to `applied0` and `executed0`. */
  predicate Reached(applied: seq<string>, executed: seq<string>, applied0: seq<string>, executed0: seq<string>,
                    p: seq<string>, ofFile: string -> seq<string>) {
    applied == applied0 + p && executed == executed0 + AllStatements(p, ofFile)
  }

  lemma ReachedNext(applied: seq<string>, executed: seq<string>, applied0: seq<string>, executed0: seq<string>,
                    p: seq<string>, f: string, ofFile: string -> seq<string>)
    requires Reached(applied, executed, applied0, executed0, p, ofFile)
    ensures Reached(applied + [f], executed + ofFile(f), applied0, executed0, p + [f], ofFile)
  {
    AllStatementsSnoc(p, f, ofFile);
  }

  /** Every file of `p` is accepted. */
  predicate AllAccepted(p: seq<string>, ofFile: string -> seq<string>, rejects: set<string>) {
    forall j :: 0 <= j < |p| ==> Accepted(p[j], ofFile, rejects)
  }

  /** When the run stops at the `i`-th name, after accepted files only, the
      files recorded are those before it and the statements run are those
      of `RunStatementsOf`. */
  lemma FailedHere(sorted: seq<string>, i: int, done: set<string>, ofFile: string -> seq<string>, rejects: set<string>)
    requires 0 <= i < |sorted| && sorted[i] !in done
    requires AllAccepted(Unapplied(sorted[..i], done), ofFile, rejects)
    requires !Accepted(sorted[i], ofFile, rejects)
    ensures var p, before := Unapplied(sorted, done), Unapplied(sorted[..i], done);
            FirstFailing(p, ofFile, rejects) == |before| < |p| && p[..|before|] == before
            && RunStatementsOf(p, ofFile, rejects)
               == AllStatements(before, ofFile) + ofFile(sorted[i])[..FirstRejected(ofFile(sorted[i]), rejects)]
  {
    var p, before := Unapplied(sorted, done), Unapplied(sorted[..i], done);
    UnappliedStep(sorted, i, done);
    UnappliedExtends(sorted, i + 1, done);
    assert p[..|before| + 1] == before + [sorted[i]];
    assert p[..|before|] == before by {
      assert p[..|before|] == p[..|before| + 1][..|before|];
    }
    assert p[|before|] == sorted[i] by {
      assert p[|before|] == p[..|before| + 1][|before|];
    }
    FirstFailingAt(p, |before|, ofFile, rejects);
  }

  /** A failed run leaves `applied0` followed by a proper prefix of the
      files it was to apply. */
  predicate FailedPrefix(applied0: seq<string>, applied: seq<string>, p: seq<string>) {
    |applied0| <= |applied| < |applied0| + |p| && applied == applied0 + p[..|applied| - |applied0|]
  }

  class Database {
    /** The names in the `migrations` table, in the order they were added. */
    var applied: seq<string>
    /** Every statement the server has run, in order. */
    var executed: seq<string>

    constructor (applied0: seq<string>)
      ensures applied == applied0 && executed == []
    {
      applied := applied0;
      executed := [];
    }

    /** applyMigration: runs the file's statements in order and then records
        its name; when the server refuses a statement the run stops there,
        the statements before it stay run and the name is not recorded. */
    method ApplyMigration(name: string, sql: string, rejects: set<string>) returns (ok: bool)
      modifies this
      ensures var stmts := Statements(sql);
              ok == (FirstRejected(stmts, rejects) == |stmts|)
              && executed == old(executed) + stmts[..FirstRejected(stmts, rejects)]
              && applied == if ok then old(applied) + [name] else old(applied)
    {
      ok := ApplyStatements(name, Statements(sql), rejects);
    }

    /** applyMigration once the file is split into `stmts`. */
    method ApplyStatements(name: string, stmts: seq<string>, rejects: set<string>) returns (ok: bool)
      modifies this
      ensures ok == (FirstRejected(stmts, rejects) == |stmts|)
      ensures executed == old(executed) + stmts[..FirstRejected(stmts, rejects)]
      ensures applied == if ok then old(applied) + [name] else old(applied)
    {
      var n := RunStatements(stmts, rejects);
      if n < |stmts| {
        return false;
      }
      applied := applied + [name];
      ok := true;
    }

    /** The loop of applyMigration: runs the statements in order up to the
        first one the server refuses, and says how many ran. */
    method RunStatements(stmts: seq<string>, rejects: set<string>) returns (n: nat)
      modifies this
      ensures n == FirstRejected(stmts, rejects)
      ensures executed == old(executed) + stmts[..n] && applied == old(applied)
    {
      n := 0;
      while n < |stmts|
        invariant n <= FirstRejected(stmts, rejects)
        invariant executed == old(executed) + stmts[..n]
        invariant applied == old(applied)
      {
        if stmts[n] in rejects {
          return;
        }
        executed := executed + [stmts[n]];
        n := n + 1;
      }
    }

    /** run: with the names already applied read once at the start, applies
        the pending files in name order; a failure ends the run with only
        the files before the failing one recorded. */
    method Run(files: seq<string>, contents: string -> string, rejects: set<string>) returns (ok: bool)
      modifies this
      ensures var p := Pending(files, set n | n in old(applied));
              (ok ==> applied == old(applied) + p
                      && executed == old(executed) + AllStatements(p, StatementsOf(contents)))
              && (!ok ==> FailedPrefix(old(applied), applied, p))
      ensures var p := Pending(files, set n | n in old(applied));
              var k := FirstFailing(p, StatementsOf(contents), rejects);
              ok == (k == |p|)
              && applied == old(applied) + p[..k]
              && executed == old(executed) + RunStatementsOf(p, StatementsOf(contents), rejects)
    {
      var done := set n | n in applied;
      ok := ApplyInOrder(SqlFiles(files), done, StatementsOf(contents), rejects);
    }

    /** applyMigration on the file named `f`, split by `ofFile`. */
    method ApplyFile(f: string, ofFile: string -> seq<string>, rejects: set<string>) returns (ok: bool)
      modifies this
      ensures ok ==> applied == old(applied) + [f] && executed == old(executed) + ofFile(f)
      ensures !ok ==> applied == old(applied)
      ensures ok == Accepted(f, ofFile, rejects)
      ensures executed == old(executed) + ofFile(f)[..FirstRejected(ofFile(f), rejects)]
    {
      var stmts := ofFile(f);
      ok := ApplyStatements(f, stmts, rejects);
      assert stmts[..|stmts|] == stmts;
    }

    /** The loop of run over the sorted `.sql` files, each split by `ofFile`. */
    method ApplyInOrder(sorted: seq<string>, done: set<string>, ofFile: string -> seq<string>, rejects: set<string>) returns (ok: bool)
      modifies this
      ensures var p := Unapplied(sorted, done);
              (ok ==> Reached(applied, executed, old(applied), old(executed), p, ofFile))
              && (!ok ==> FailedPrefix(old(applied), applied, p))
      ensures var p := Unapplied(sorted, done);
              var k := FirstFailing(p, ofFile, rejects);
              ok == (k == |p|)
              && applied == old(applied) + p[..k]
              && executed == old(executed) + RunStatementsOf(p, ofFile, rejects)
    {
      ghost var a0, e0 := applied, executed;
      var i := 0;
      while i < |sorted|
        invariant 0 <= i <= |sorted|
        invariant Reached(applied, executed, a0, e0, Unapplied(sorted[..i], done), ofFile)
        invariant AllAccepted(Unapplied(sorted[..i], done), ofFile, rejects)
      {
        var fileOk := Consider(sorted, i, done, ofFile, rejects, a0, e0);
        if !fileOk {
          return false;
        }
        i := i + 1;
      }
      assert sorted[..i] == sorted;
      ghost var p := Unapplied(sorted, done);
      RunStatementsOfAccepted(p, ofFile, rejects);
      FirstFailingAt(p, |p|, ofFile, rejects);
      assert p[..|p|] == p;
      ok := true;
    }

    /** One turn of the loop of run: the `i`-th file is applied unless it
        is in `done`. */
    method Consider(sorted: seq<string>, i: int, done: set<string>, ofFile: string -> seq<string>, rejects: set<string>,
                    ghost a0: seq<string>, ghost e0: seq<string>) returns (ok: bool)
      requires 0 <= i < |sorted|
      requires Reached(applied, executed, a0, e0, Unapplied(sorted[..i], done), ofFile)
      requires AllAccepted(Unapplied(sorted[..i], done), ofFile, rejects)
      modifies this
      ensures ok ==> Reached(applied, executed, a0, e0, Unapplied(sorted[..i + 1], done), ofFile)
      ensures ok ==> AllAccepted(Unapplied(sorted[..i + 1], done), ofFile, rejects)
      ensures !ok ==> FailedPrefix(a0, applied, Unapplied(sorted, done))
      ensures !ok ==> var p := Unapplied(sorted, done);
                      var k := FirstFailing(p, ofFile, rejects);
                      k < |p| && applied == a0 + p[..k] && executed == e0 + RunStatementsOf(p, ofFile, rejects)
    {
      var f := sorted[i];
      ghost var before, a1, e1 := Unapplied(sorted[..i], done), applied, executed;
      UnappliedStep(sorted, i, done);
      ok := true;
      if f !in done {
        ok := ApplyFile(f, ofFile, rejects);
        if !ok {
          FailedAt(a0, sorted, i, done);
          FailedHere(sorted, i, done, ofFile, rejects);
          return;
        }
        ReachedNext(a1, e1, a0, e0, before, f, ofFile);
      } else {
        assert before + [] == before;
      }
    }
  }
}
