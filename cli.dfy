/**
  The command line of sharedir: `sharedir [-r] [-a ADDR] [directory]`,
  scanned by the loop in `main` (sharedir.go). `args` is `os.Args`, with
  the program name at position 0.
*/
module Cli {
  /** The settings the scan produces. */
  datatype Config = Config(recursive: bool, addr: string, root: string)

  /** What the program does after the scan. */
  datatype Outcome =
    | Help                  // prints the usage text and exits with status 0
    | MissingAddr           // "-a" without a value: exits with status 1
    | Start(config: Config) // makes the root absolute and serves it

  const DefaultAddr: string := ":2022"

  /** The settings before any argument is read; the empty root means the working directory. */
  const Initial: Config := Config(false, DefaultAddr, "")

  predicate IsHelp(a: string)
  {
    a == "help" || a == "--help" || a == "-h"
  }

  /**
    The scan from position `i` with the settings `cfg` read so far. It
    never asks for help, and it fails only when the last argument is an
    "-a" that the scan reaches as a flag.
  */
  function Scan(args: seq<string>, i: nat, cfg: Config): (r: Outcome)
    ensures r != Help
    ensures r == MissingAddr ==> i < |args| && args[|args| - 1] == "-a"
    decreases |args| - i
  {
    if i >= |args| then Start(cfg)
    else if args[i] == "-r" then Scan(args, i + 1, cfg.(recursive := true))
    else if args[i] == "-a" then
      if i + 1 < |args| then Scan(args, i + 2, cfg.(addr := args[i + 1])) else MissingAddr
    else Scan(args, i + 1, cfg.(root := args[i]))
  }

  /**
    A help word is recognised only as the first argument; otherwise the
    scan starts there. Help is asked for exactly by a first argument that
    is a help word, and the command line fails only when it ends in "-a".
  */
  function ParseArgs(args: seq<string>): (r: Outcome)
    ensures r == Help <==> |args| > 1 && IsHelp(args[1])
    ensures r == MissingAddr ==> |args| > 1 && args[|args| - 1] == "-a"
  {
    if |args| > 1 && IsHelp(args[1]) then Help else Scan(args, 1, Initial)
  }

  /** The argument loop of `main`. */
  method ScanArgs(args: seq<string>) returns (o: Outcome)
    ensures o == ParseArgs(args)
  {
    var recursive, addr, root := false, DefaultAddr, "";
    if |args| > 1 {
      var a := args[1];
      if a == "help" || a == "--help" || a == "-h" {
        return Help;
      }
      var i := 1;
      while i < |args|
        invariant 1 <= i <= |args|
        invariant Scan(args, i, Config(recursive, addr, root)) == ParseArgs(args)
        decreases |args| - i
      {
        a := args[i];
        if a == "-r" {
          recursive := true;
          i := i + 1;
          continue;
        }
        if a == "-a" {
          if i + 1 < |args| {
            addr := args[i + 1];
            i := i + 2;
          } else {
            return MissingAddr;
          }
          continue;
        }
        root := args[i];
        i := i + 1;
      }
    }
    return Start(Config(recursive, addr, root));
  }

  /** Only "-r", "-a" and what follows an "-a" are not positional. */
  predicate IsPositional(a: string)
  {
    a != "-r" && a != "-a"
  }

  /**
    The scan composes: once a prefix has been scanned completely, the rest
    is scanned from the settings it left.
  */
  lemma {:induction false} ScanAppend(xs: seq<string>, ys: seq<string>, i: nat, cfg: Config)
    requires i <= |xs| && Scan(xs, i, cfg).Start?
    ensures Scan(xs + ys, i, cfg) == Scan(xs + ys, |xs|, Scan(xs, i, cfg).config)
    decreases |xs| - i
  {
    var zs := xs + ys;
    if i < |xs| {
      assert zs[i] == xs[i];
      if xs[i] == "-r" {
        ScanAppend(xs, ys, i + 1, cfg.(recursive := true));
      } else if xs[i] == "-a" {
        assert zs[i + 1] == xs[i + 1];
        ScanAppend(xs, ys, i + 2, cfg.(addr := xs[i + 1]));
      } else {
        ScanAppend(xs, ys, i + 1, cfg.(root := xs[i]));
      }
    }
  }

  /**
    Appending one argument to a command line that scans: a positional
    argument becomes the root (the last one wins), "-r" sets recursive
    mode, and a trailing "-a" is an error.
  */
  lemma AppendOne(xs: seq<string>, a: string)
    requires |xs| >= 1 && ParseArgs(xs).Start? && !(|xs| == 1 && IsHelp(a))
    ensures var c := ParseArgs(xs).config;
      && (IsPositional(a) ==> ParseArgs(xs + [a]) == Start(c.(root := a)))
      && (a == "-r" ==> ParseArgs(xs + [a]) == Start(c.(recursive := true)))
      && (a == "-a" ==> ParseArgs(xs + [a]) == MissingAddr)
  {
    var zs := xs + [a];
    assert |xs| > 1 ==> zs[1] == xs[1];
    ScanAppend(xs, [a], 1, Initial);
    assert zs[|xs|] == a;
  }

  /** Appending "-a" and a value to a command line that scans sets the address to that value, whatever it is. */
  lemma AppendAddr(xs: seq<string>, v: string)
    requires |xs| >= 1 && ParseArgs(xs).Start?
    ensures ParseArgs(xs + ["-a", v]) == Start(ParseArgs(xs).config.(addr := v))
  {
    var zs := xs + ["-a", v];
    assert |xs| > 1 ==> zs[1] == xs[1];
    assert |xs| == 1 ==> zs[1] == "-a";
    ScanAppend(xs, ["-a", v], 1, Initial);
    assert zs[|xs|] == "-a" && zs[|xs| + 1] == v;
  }

  /**
    Without any "-a", the command line always scans: recursive mode is on
    exactly when "-r" appears, the address is the default, and the root is
    the last positional argument (the working directory when there is none).
  */
  lemma {:induction false} ScanWithoutAddr(args: seq<string>, i: nat, cfg: Config)
    requires i <= |args| && "-a" !in args[i..]
    ensures Scan(args, i, cfg) == Start(Config(cfg.recursive || "-r" in args[i..], cfg.addr,
                                               LastPositional(args[i..], cfg.root)))
    decreases |args| - i
  {
    if i < |args| {
      var rest := args[i..];
      assert rest == [args[i]] + args[i + 1..];
      assert args[i] in rest;
      if args[i] == "-r" {
        ScanWithoutAddr(args, i + 1, cfg.(recursive := true));
        LastPositionalCons(args[i], args[i + 1..], cfg.root);
      } else {
        ScanWithoutAddr(args, i + 1, cfg.(root := args[i]));
        LastPositionalCons(args[i], args[i + 1..], cfg.root);
      }
    }
  }

  /** The last argument of `xs` that is not a flag, or `dflt` when there is none. */
  function LastPositional(xs: seq<string>, dflt: string): (r: string)
    ensures r == dflt || (r in xs && IsPositional(r))
    decreases |xs|
  {
    if xs == [] then dflt
    else if IsPositional(xs[|xs| - 1]) then xs[|xs| - 1]
    else LastPositional(xs[..|xs| - 1], dflt)
  }

  /** Reading `LastPositional` from the front. */
  lemma {:induction false} LastPositionalCons(a: string, xs: seq<string>, dflt: string)
    ensures LastPositional([a] + xs, dflt) == LastPositional(xs, if IsPositional(a) then a else dflt)
    decreases |xs|
  {
    var zs := [a] + xs;
    if xs != [] {
      assert zs[|zs| - 1] == xs[|xs| - 1];
      assert zs[..|zs| - 1] == [a] + xs[..|xs| - 1];
      LastPositionalCons(a, xs[..|xs| - 1], dflt);
    } else {
      assert zs[..|zs| - 1] == [];
    }
  }

  /** The command line without "-a": the default address, and no way to fail. */
  lemma ParseWithoutAddr(args: seq<string>)
    requires |args| >= 1 && "-a" !in args[1..] && !(|args| > 1 && IsHelp(args[1]))
    ensures ParseArgs(args) == Start(Config("-r" in args[1..], DefaultAddr, LastPositional(args[1..], "")))
  {
    ScanWithoutAddr(args, 1, Initial);
  }

  /**
    Where the settings come from: the address is the default or the value
    after some "-a", the root is empty or one of the arguments, and
    recursive mode needs a "-r" somewhere.
  */
  lemma {:induction false} ScanProvenance(args: seq<string>, i: nat, cfg: Config)
    requires 1 <= i && |args| >= 1
    requires cfg.addr == DefaultAddr || exists j :: 1 <= j < |args| - 1 && args[j] == "-a" && args[j + 1] == cfg.addr
    requires cfg.root == "" || cfg.root in args[1..]
    requires cfg.recursive ==> "-r" in args[1..]
    ensures Scan(args, i, cfg).Start? ==> var c := Scan(args, i, cfg).config;
      && (c.addr == DefaultAddr || exists j :: 1 <= j < |args| - 1 && args[j] == "-a" && args[j + 1] == c.addr)
      && (c.root == "" || c.root in args[1..])
      && (c.recursive ==> "-r" in args[1..])
    decreases |args| - i
  {
    if i < |args| {
      assert args[i] == args[1..][i - 1];
      if args[i] == "-r" {
        ScanProvenance(args, i + 1, cfg.(recursive := true));
      } else if args[i] == "-a" {
        if i + 1 < |args| {
          ScanProvenance(args, i + 2, cfg.(addr := args[i + 1]));
        }
      } else {
        ScanProvenance(args, i + 1, cfg.(root := args[i]));
      }
    }
  }

  /** The settings of a command line that starts the server come from its arguments. */
  lemma ParseProvenance(args: seq<string>)
    requires |args| >= 1 && ParseArgs(args).Start?
    ensures var c := ParseArgs(args).config;
      && (c.addr == DefaultAddr || exists j :: 1 <= j < |args| - 1 && args[j] == "-a" && args[j + 1] == c.addr)
      && (c.root == "" || c.root in args[1..])
      && (c.recursive ==> "-r" in args[1..])
  {
    ScanProvenance(args, 1, Initial);
  }

  /** A help word is only recognised first: after another argument it is taken as the root. */
  lemma HelpOnlyFirst(prog: string, first: string, w: string)
    requires IsPositional(first) && !IsHelp(first) && IsHelp(w)
    ensures ParseArgs([prog]) == Start(Initial)
    ensures ParseArgs([prog, w]) == Help
    ensures ParseArgs([prog, first, w]) == Start(Initial.(root := w))
  {
    var args := [prog, first, w];
    assert Scan(args, 3, Initial.(root := w)) == Start(Initial.(root := w));
    assert Scan(args, 2, Initial.(root := first)) == Scan(args, 3, Initial.(root := w));
  }

  /** "-a" takes the next argument as the address even when it is "-r". */
  lemma AddrTakesFlag(prog: string)
    ensures ParseArgs([prog, "-a", "-r"]) == Start(Config(false, "-r", ""))
    ensures ParseArgs([prog, "-r", "-a"]) == MissingAddr
  {
    var args := [prog, "-a", "-r"];
    assert Scan(args, 3, Initial.(addr := "-r")) == Start(Config(false, "-r", ""));
    var args' := [prog, "-r", "-a"];
    assert Scan(args', 2, Initial.(recursive := true)) == MissingAddr;
  }
}
