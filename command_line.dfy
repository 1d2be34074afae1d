/** `nargs_fit`: before the argument list reaches the parser, an argument
    that starts with `-` but is not an option (a negative number, a name
    that begins with a dash) is prefixed with a space when it follows an
    option that takes values, so that the parser reads it as a value. */
module CommandLine {

  /** An action's `nargs`: unset (`None`), a count, or one of the patterns
      `'?'`, `'*'`, `'+'`. */
  datatype Nargs = Unset | Count(n: int) | Pattern(p: string)

  /** Python truthiness of `nargs`. */
  predicate Truthy(n: Nargs) {
    match n
    case Unset => false
    case Count(k) => k != 0
    case Pattern(p) => p != ""
  }

  /** The option strings of the parser with the `nargs` of their actions. */
  type Table = map<string, Nargs>

  predicate IsShort(table: Table, flag: string) {
    flag in table && |flag| == 2
  }

  /** Letters of short options that take values. */
  predicate TakesValues(table: Table, c: char) {
    ['-', c] in table && Truthy(table[['-', c]])
  }

  /** Letters of short options that take no argument at all. */
  predicate NoArgument(table: Table, c: char) {
    ['-', c] in table && table[['-', c]] == Count(0)
  }

  predicate StartsWithDash(s: string) {
    |s| > 0 && s[0] == '-'
  }

  /** `validate(part)`: a cluster of argument-free short options ending in
      any short option, or a known long option. */
  predicate Validate(table: Table, part: string) {
    (|part| >= 2 && part[0] == '-' && part[1] != '-'
     && (forall k :: 1 <= k < |part| - 1 ==> NoArgument(table, part[k]))
     && IsShort(table, ['-', part[|part| - 1]]))
    || (|part| >= 2 && part[..2] == "--" && part in table && |part| > 2)
  }

  /** The `greedy` flag after looking at `arg`. */
  function Greedy(table: Table, greedy: bool, arg: string): bool {
    if !StartsWithDash(arg) then greedy
    else if Validate(table, arg) && TakesValues(table, arg[|arg| - 1]) then true
    else if Validate(table, arg) then false
    else greedy
  }

  /** The `greedy` flag when the loop reaches position `i`. */
  function GreedyBefore(table: Table, args: seq<string>, i: nat): bool
    requires i <= |args|
  {
    if i == 0 then false else Greedy(table, GreedyBefore(table, args, i - 1), args[i - 1])
  }

  /** Whether the argument at `i` gets the leading space. */
  predicate Shifted(table: Table, args: seq<string>, i: nat)
    requires i < |args|
  {
    StartsWithDash(args[i]) && !Validate(table, args[i]) && GreedyBefore(table, args, i)
  }

  /** The argument list after `nargs_fit`. */
  function Fitted(table: Table, args: seq<string>): (r: seq<string>)
    ensures |r| == |args|
  {
    seq(|args|, i requires 0 <= i < |args| => if Shifted(table, args, i) then " " + args[i] else args[i])
  }

  /** `nargs_fit(parser, args)`, rewriting the list in place. */
  method NargsFit(table: Table, args: array<string>)
    modifies args
    ensures args[..] == Fitted(table, old(args[..]))
  {
    ghost var original := args[..];
    var greedy := false;
    for index := 0 to args.Length
      invariant greedy == GreedyBefore(table, original, index)
      invariant args[..index] == Fitted(table, original)[..index]
      invariant args[index..] == original[index..]
    {
      var arg := args[index];
      assert arg == original[index];
      if StartsWithDash(arg) {
        var valid := Validate(table, arg);
        if valid && TakesValues(table, arg[|arg| - 1]) {
          greedy := true;
        } else if valid {
          greedy := false;
        } else if greedy {
          args[index] := " " + args[index];
        }
      }
      assert args[index] == Fitted(table, original)[index];
      PrefixExtend(args[..], Fitted(table, original), index);
      assert args[index + 1..] == original[index + 1..] by {
        assert args[index + 1..] == args[index..][1..];
      }
    }
    assert args[..] == args[..args.Length];
  }

  lemma PrefixExtend(a: seq<string>, b: seq<string>, n: nat)
    requires n < |a| && n < |b| && a[..n] == b[..n] && a[n] == b[n]
    ensures a[..n + 1] == b[..n + 1]
  {
    assert a[..n + 1] == a[..n] + [a[n]];
    assert b[..n + 1] == b[..n] + [b[n]];
  }

  /** Every argument is kept or gains exactly a leading space, and only a
      dash-led non-option in greedy mode gains it. */
  lemma FittedChange(table: Table, args: seq<string>, i: nat)
    requires i < |args|
    ensures Fitted(table, args)[i] == args[i] || Fitted(table, args)[i] == " " + args[i]
    ensures Fitted(table, args)[i] != args[i] <==>
      StartsWithDash(args[i]) && !Validate(table, args[i]) && GreedyBefore(table, args, i)
  {
    if Fitted(table, args)[i] != args[i] {
      assert Shifted(table, args, i);
    }
    if Shifted(table, args, i) {
      assert |Fitted(table, args)[i]| == |args[i]| + 1;
    }
  }

  /** Shifted arguments no longer start with a dash, so the greedy flag
      moves in the same way over the fitted list. */
  lemma {:induction false} GreedyFitted(table: Table, args: seq<string>, i: nat)
    requires i <= |args|
    ensures GreedyBefore(table, Fitted(table, args), i) == GreedyBefore(table, args, i)
  {
    if i > 0 {
      GreedyFitted(table, args, i - 1);
      var a, f := args[i - 1], Fitted(table, args)[i - 1];
      if f != a {
        assert f[0] == ' ';
        assert !StartsWithDash(a) || !Validate(table, a);
      }
    }
  }

  /** Fitting twice is fitting once. */
  lemma FittedIdempotent(table: Table, args: seq<string>)
    ensures Fitted(table, Fitted(table, args)) == Fitted(table, args)
  {
    var f := Fitted(table, args);
    forall i | 0 <= i < |args|
      ensures Fitted(table, f)[i] == f[i]
    {
      GreedyFitted(table, args, i);
      if f[i] != args[i] {
        assert f[i][0] == ' ';
      }
    }
  }

  /** A value-taking option followed by a dash-led non-option: the latter
      gets its space. */
  lemma ValueAfterOption(table: Table, args: seq<string>, i: nat)
    requires i + 1 < |args|
    requires StartsWithDash(args[i]) && Validate(table, args[i]) && TakesValues(table, args[i][|args[i]| - 1])
    requires StartsWithDash(args[i + 1]) && !Validate(table, args[i + 1])
    ensures Fitted(table, args)[i + 1] == " " + args[i + 1]
  {
  }

  /** Without a value-taking option the list is left as it is. */
  lemma {:induction false} NoValueOptions(table: Table, args: seq<string>)
    requires forall k :: 0 <= k < |args| && StartsWithDash(args[k]) && Validate(table, args[k])
                         ==> !TakesValues(table, args[k][|args[k]| - 1])
    ensures Fitted(table, args) == args
  {
    forall i | 0 <= i < |args|
      ensures !GreedyBefore(table, args, i)
    {
      NeverGreedy(table, args, i);
    }
  }

  lemma {:induction false} NeverGreedy(table: Table, args: seq<string>, i: nat)
    requires i <= |args|
    requires forall k :: 0 <= k < |args| && StartsWithDash(args[k]) && Validate(table, args[k])
                         ==> !TakesValues(table, args[k][|args[k]| - 1])
    ensures !GreedyBefore(table, args, i)
  {
    if i > 0 {
      NeverGreedy(table, args, i - 1);
    }
  }

  /** The options of the program's own parser. */
  const ProgramTable: Table := map[
    "-h" := Count(0), "--help" := Count(0), "-u" := Pattern("+"), "-f" := Pattern("+"),
    "-d" := Unset, "-s" := Unset, "-r" := Unset, "-i" := Unset, "-c" := Unset,
    "-b" := Unset, "-n" := Unset, "-v" := Count(0), "-o" := Count(0)
  ]

  /** A user name that starts with a dash after `-u` is protected, while an
      option cluster such as `-vo` ends the user list. */
  lemma DashedUserName()
    ensures Fitted(ProgramTable, ["-u", "-alice", "-vo", "-bob"]) == ["-u", " -alice", "-vo", "-bob"]
  {
    var args := ["-u", "-alice", "-vo", "-bob"];
    UserOption();
    FlagCluster();
    DashedNames();
    assert GreedyBefore(ProgramTable, args, 1);
    assert GreedyBefore(ProgramTable, args, 2);
    assert !GreedyBefore(ProgramTable, args, 3);
    var f := Fitted(ProgramTable, args);
    assert f[0] == "-u" && f[1] == " -alice" && f[2] == "-vo" && f[3] == "-bob";
  }

  /** How the program's parser sees the arguments of `DashedUserName`:
      `-u` takes values, `-vo` is a cluster of flags without arguments, and
      neither `-alice` nor `-bob` is an option. */
  lemma UserOption()
    ensures Validate(ProgramTable, "-u") && TakesValues(ProgramTable, 'u')
  {
  }

  lemma FlagCluster()
    ensures Validate(ProgramTable, "-vo") && !TakesValues(ProgramTable, 'o')
  {
  }

  lemma DashedNames()
    ensures !Validate(ProgramTable, "-alice") && !Validate(ProgramTable, "-bob")
  {
    assert "-alice"[1] == 'a' && "-a" !in ProgramTable;
    NotACluster("-alice");
    assert "-bob"[1] == 'b' && ProgramTable["-b"] == Unset;
    NotACluster("-bob");
  }

  /** A dash-led word of three or more characters whose first letter is not
      an argument-free short option is not an option. */
  lemma NotACluster(w: string)
    requires |w| > 2 && w[0] == '-' && w[1] != '-' && !NoArgument(ProgramTable, w[1])
    ensures !Validate(ProgramTable, w)
  {
  }
}
