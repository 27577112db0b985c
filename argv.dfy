/**
 * The argument parsing of the script that creates a patient for a doctor:
 * a fold over the command-line tokens into an options object, and the
 * defaults the script then takes for the doctor id, email, password and
 * name.  The options object is a map from key to value; a key never set
 * reads as `undefined`.
 */
module Argv {
  import opened Wrappers
  import opened JsText
  import opened JsValue

  /** `argv[k]`. */
  function Arg(argv: map<string, Value>, k: string): Value {
    if k in argv then argv[k] else Undefined
  }

  /** What one token sets, if anything:
      `--k=v...` sets `k` to the text between the first and second '=',
      `--k` sets `k` to true, `k=v...` (no leading dashes) sets `k` to the
      second piece of the split, and any other token sets nothing. */
  function Token(cur: string): Option<(string, Value)> {
    if StartsWith(cur, "--") then
      var pieces := Split(cur[2..], '=');
      Some((pieces[0], if |pieces| >= 2 then Str(pieces[1]) else Bool(true)))
    else if '=' in cur then
      var pieces := Split(cur, '=');
      Some((pieces[0], if |pieces| >= 2 then Str(pieces[1]) else Undefined))
    else None
  }

  /** `acc[k] = v` for a token that sets something. */
  function Assign(acc: map<string, Value>, t: Option<(string, Value)>): map<string, Value> {
    match t
    case None => acc
    case Some((k, v)) => acc[k := v]
  }

  /** `rawArgs.reduce(..., {})`: the tokens applied left to right. */
  function Parse(args: seq<string>): map<string, Value>
    decreases |args|
  {
    if args == [] then map[]
    else Assign(Parse(args[..|args| - 1]), Token(args[|args| - 1]))
  }

  predicate NoEquals(s: string) {
    forall i :: 0 <= i < |s| ==> s[i] != '='
  }

  /** The pieces of `v + tail`, where `v` holds no '=' and `tail` is empty
      or starts with '=', begin with `v`, and there is a second piece
      exactly when `tail` is not empty. */
  lemma SplitValue(v: string, tail: string)
    requires NoEquals(v)
    requires tail == "" || tail[0] == '='
    ensures Split(v + tail, '=')[0] == v
    ensures |Split(v + tail, '=')| >= 2 <==> tail != ""
  {
    if tail == "" {
      assert v + tail == v;
      SplitWithout(v, '=');
    } else {
      assert v + tail == v + ['='] + tail[1..];
      SplitAtFirst(v, '=', tail[1..]);
    }
  }

  /** `--k=v`, and `--k=v=...`, set `k` to `v`: the text between the first
      and the second '='. */
  lemma DashedPairSetsValue(k: string, v: string, tail: string)
    requires NoEquals(k) && NoEquals(v)
    requires tail == "" || tail[0] == '='
    ensures Token("--" + k + "=" + v + tail) == Some((k, Str(v)))
  {
    var cur := "--" + k + "=" + v + tail;
    assert cur[..2] == "--";
    assert cur[2..] == k + ['='] + (v + tail);
    SplitAtFirst(k, '=', v + tail);
    SplitValue(v, tail);
  }

  /** `--k` without '=' sets `k` to true. */
  lemma FlagSetsTrue(k: string)
    requires NoEquals(k)
    ensures Token("--" + k) == Some((k, Bool(true)))
  {
    var cur := "--" + k;
    assert cur[..2] == "--";
    assert cur[2..] == k;
    SplitWithout(k, '=');
  }

  /** `k=v` without leading dashes sets `k` to `v`. */
  lemma PlainPairSetsValue(k: string, v: string, tail: string)
    requires NoEquals(k) && NoEquals(v) && !StartsWith(k, "--")
    requires tail == "" || tail[0] == '='
    ensures Token(k + "=" + v + tail) == Some((k, Str(v)))
  {
    var cur := k + "=" + v + tail;
    if |k| >= 2 {
      assert cur[..2] == k[..2];
    } else {
      assert |cur| < 2 || cur[..2] != "--" by {
        if |cur| >= 2 {
          assert cur[|k|] == '=';
        }
      }
    }
    assert cur[|k|] == '=';
    assert cur == k + ['='] + (v + tail);
    SplitAtFirst(k, '=', v + tail);
    SplitValue(v, tail);
  }

  /** A token with no leading dashes and no '=' sets nothing. */
  lemma OtherTokensIgnored(args: seq<string>, cur: string)
    requires !StartsWith(cur, "--") && '=' !in cur
    ensures Parse(args + [cur]) == Parse(args)
  {
    assert (args + [cur])[..|args|] == args;
  }

  /** A later token overwrites what an earlier one set for the same key,
      and leaves every other key as it was. */
  lemma LaterTokenWins(args: seq<string>, cur: string, k: string, v: Value)
    requires Token(cur) == Some((k, v))
    ensures Arg(Parse(args + [cur]), k) == v
    ensures forall other :: other != k ==> Arg(Parse(args + [cur]), other) == Arg(Parse(args), other)
  {
    assert (args + [cur])[..|args|] == args;
  }

  /** A key is set exactly when some token sets it, and then holds what the
      last such token set. */
  lemma {:induction false} ParseIsLastAssignment(args: seq<string>, k: string)
    ensures k in Parse(args) <==> exists i :: 0 <= i < |args| && Token(args[i]).Some? && Token(args[i]).value.0 == k
    ensures forall i :: 0 <= i < |args| && Token(args[i]).Some? && Token(args[i]).value.0 == k
                        && (forall j :: i < j < |args| ==> !(Token(args[j]).Some? && Token(args[j]).value.0 == k))
                        ==> Arg(Parse(args), k) == Token(args[i]).value.1
    decreases |args|
  {
    if args != [] {
      var init := args[..|args| - 1];
      var last := args[|args| - 1];
      ParseIsLastAssignment(init, k);
      assert forall i :: 0 <= i < |init| ==> init[i] == args[i];
      if Token(last).Some? && Token(last).value.0 == k {
        assert Arg(Parse(args), k) == Token(last).value.1;
      } else {
        assert Arg(Parse(args), k) == Arg(Parse(init), k);
        assert k in Parse(args) <==> k in Parse(init);
      }
    }
  }

  /** The options `main` reads. */
  datatype Options = Options(doctorId: Num, email: Value, password: Value, name: Value)

  /** `Number(argv.doctorId || argv.d || 1)` and the fixed fallbacks of
      email, password and name. */
  function MainOptions(argv: map<string, Value>): (r: Options)
    ensures Truthy(Arg(argv, "doctorId")) ==> r.doctorId == ToNumber(Arg(argv, "doctorId"))
    ensures !Truthy(Arg(argv, "doctorId")) && Truthy(Arg(argv, "d")) ==> r.doctorId == ToNumber(Arg(argv, "d"))
    ensures !Truthy(Arg(argv, "doctorId")) && !Truthy(Arg(argv, "d")) ==> r.doctorId == Val(1)
    ensures Truthy(Arg(argv, "email")) ==> r.email == Arg(argv, "email")
    ensures !Truthy(Arg(argv, "email")) ==> r.email == Str("patient@hq.com")
    ensures Truthy(Arg(argv, "password")) ==> r.password == Arg(argv, "password")
    ensures !Truthy(Arg(argv, "password")) ==> r.password == Str("1234567")
    ensures Truthy(Arg(argv, "name")) ==> r.name == Arg(argv, "name")
    ensures !Truthy(Arg(argv, "name")) ==> r.name == Str("Patient User")
  {
    Options(ToNumber(Or(Or(Arg(argv, "doctorId"), Arg(argv, "d")), Num(1))),
            Or(Arg(argv, "email"), Str("patient@hq.com")),
            Or(Arg(argv, "password"), Str("1234567")),
            Or(Arg(argv, "name"), Str("Patient User")))
  }

  /** With no arguments the script works for doctor 1 with the fixed
      email, password and name. */
  lemma NoArgumentsDefaults()
    ensures MainOptions(Parse([])) == Options(Val(1), Str("patient@hq.com"), Str("1234567"), Str("Patient User"))
  {
    var argv := Parse([]);
    assert argv == map[];
    assert forall k :: Arg(argv, k) == Undefined;
  }

  /** A bare `--doctorId` flag, last among the arguments, sets it to
      true, and `Number(true)` is doctor 1. */
  lemma BareDoctorIdFlag(args: seq<string>)
    ensures MainOptions(Parse(args + ["--" + "doctorId"])).doctorId == Val(1)
  {
    FlagSetsTrue("doctorId");
    LaterTokenWins(args, "--" + "doctorId", "doctorId", Bool(true));
  }
}
