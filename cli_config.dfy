/** The configuration main folds out of the command line: root paths, the
    continue flag and the depth bound. The option list is taken as getopt
    returns it, as (option, value) pairs in command-line order. */
module CliConfig {

  datatype Option<T> = None | Some(value: T)

  /** One option as getopt returns it: its spelling ("-c", "--help", ...)
      and its value ("" when it takes none). */
  datatype Opt = Opt(flag: string, value: string)

  datatype Config = Config(paths: seq<string>, cont: bool, maxDepth: int)

  /** How the fold ends: with a configuration to run, at `-h` (usage is
      printed and the program exits), or at a `-d` value that is not an
      integer. */
  datatype Parsed = Ready(config: Config) | Help | BadDepth(value: string)

  const DefaultPaths: seq<string> := ["."]
  const DefaultMaxDepth: int := 10

  /** The defaults, with non-empty positional arguments replacing the paths. */
  function Defaults(args: seq<string>): Config {
    Config(if |args| > 0 then args else DefaultPaths, false, DefaultMaxDepth)
  }

  predicate IsDigit(ch: char) {
    '0' <= ch <= '9'
  }

  predicate AllDigits(s: string) {
    forall k :: 0 <= k < |s| ==> IsDigit(s[k])
  }

  /** The value of a string of decimal digits. */
  function DigitsValue(s: string): nat
    requires AllDigits(s)
  {
    if s == [] then 0
    else
      assert IsDigit(s[|s| - 1]);
      DigitsValue(s[..|s| - 1]) * 10 + ((s[|s| - 1] as int) - ('0' as int))
  }

  /** An integer literal: an optional sign, then one or more decimal digits. */
  function ParseInt(s: string): Option<int> {
    if |s| > 0 && (s[0] == '-' || s[0] == '+') then
      if |s| > 1 && AllDigits(s[1..]) then
        var v: int := DigitsValue(s[1..]);
        Some(if s[0] == '-' then -v else v)
      else None
    else if |s| > 0 && AllDigits(s) then Some(DigitsValue(s))
    else None
  }

  /** The decimal digits of a natural number, most significant first. */
  function ShowNat(n: nat): (r: string)
    ensures |r| > 0 && AllDigits(r)
  {
    if n < 10 then [('0' as int + n) as char]
    else ShowNat(n / 10) + [('0' as int + n % 10) as char]
  }

  function ShowInt(n: int): string {
    if n < 0 then "-" + ShowNat(-n) else ShowNat(n)
  }

  lemma {:induction false} DigitsShowNat(n: nat)
    ensures DigitsValue(ShowNat(n)) == n
  {
    if n >= 10 {
      DigitsShowNat(n / 10);
      var s := ShowNat(n);
      assert s[..|s| - 1] == ShowNat(n / 10);
    }
  }

  /** Every integer written in decimal reads back as itself. */
  lemma ParseShowInt(n: int)
    ensures ParseInt(ShowInt(n)) == Some(n)
  {
    if n < 0 {
      DigitsShowNat(-n);
      assert ShowInt(n)[1..] == ShowNat(-n);
    } else {
      DigitsShowNat(n);
    }
  }

  /** An option that ends the fold: `-h`, or `-d` with a value that is not an
      integer. */
  predicate Stops(o: Opt) {
    o.flag == "-h" || (o.flag == "-d" && ParseInt(o.value).None?)
  }

  /** The effect of one option on the configuration so far. Only the short
      spellings are compared; every other option leaves it as it is. */
  function Apply(c: Config, o: Opt): Parsed {
    if o.flag == "-c" then Ready(c.(cont := true))
    else if o.flag == "-d" then
      match ParseInt(o.value)
      case Some(n) => Ready(c.(maxDepth := n))
      case None => BadDepth(o.value)
    else if o.flag == "-h" then Help
    else Ready(c)
  }

  function FoldOpts(c: Config, opts: seq<Opt>): Parsed
    decreases opts
  {
    if opts == [] then Ready(c)
    else match Apply(c, opts[0])
      case Ready(c1) => FoldOpts(c1, opts[1..])
      case other => other
  }

  /** The configuration main runs with. */
  function Configure(args: seq<string>, opts: seq<Opt>): Parsed {
    FoldOpts(Defaults(args), opts)
  }

  /** The loop in main that reassigns the configuration variables option by
      option. */
  method ParseOptions(args: seq<string>, opts: seq<Opt>) returns (r: Parsed)
    ensures r == Configure(args, opts)
  {
    var paths := DefaultPaths;
    var cont := false;
    var maxDepth := DefaultMaxDepth;
    if |args| > 0 {
      paths := args;
    }
    for i := 0 to |opts|
      invariant FoldOpts(Config(paths, cont, maxDepth), opts[i..]) == Configure(args, opts)
    {
      var o := opts[i];
      assert opts[i..][1..] == opts[i + 1..];
      if o.flag == "-c" {
        cont := true;
      } else if o.flag == "-d" {
        var n := ParseInt(o.value);
        if n.None? {
          return BadDepth(o.value);
        }
        maxDepth := n.value;
      } else if o.flag == "-h" {
        return Help;
      }
    }
    r := Ready(Config(paths, cont, maxDepth));
  }

  lemma {:induction false} FoldKeepsPaths(c: Config, opts: seq<Opt>)
    ensures FoldOpts(c, opts).Ready? ==> FoldOpts(c, opts).config.paths == c.paths
    decreases opts
  {
    if opts != [] && Apply(c, opts[0]).Ready? {
      FoldKeepsPaths(Apply(c, opts[0]).config, opts[1..]);
    }
  }

  /** The walk paths are "." unless positional arguments are given, and then
      exactly those. */
  lemma ConfigurePaths(args: seq<string>, opts: seq<Opt>)
    requires Configure(args, opts).Ready?
    ensures Configure(args, opts).config.paths == if |args| > 0 then args else ["."]
  {
    FoldKeepsPaths(Defaults(args), opts);
  }

  lemma {:induction false} FoldContinue(c: Config, opts: seq<Opt>)
    requires FoldOpts(c, opts).Ready?
    ensures FoldOpts(c, opts).config.cont <==> c.cont || exists i :: 0 <= i < |opts| && opts[i].flag == "-c"
    decreases opts
  {
    if opts != [] {
      FoldContinue(Apply(c, opts[0]).config, opts[1..]);
      assert forall i :: 0 < i < |opts| ==> opts[i] == opts[1..][i - 1];
      assert forall i :: 0 <= i < |opts| - 1 ==> opts[1..][i] == opts[i + 1];
    }
  }

  /** Continue is on exactly when a `-c` option occurs. */
  lemma ConfigureContinue(args: seq<string>, opts: seq<Opt>)
    requires Configure(args, opts).Ready?
    ensures Configure(args, opts).config.cont <==> exists i :: 0 <= i < |opts| && opts[i].flag == "-c"
  {
    FoldContinue(Defaults(args), opts);
  }

  lemma {:induction false} FoldDepth(c: Config, opts: seq<Opt>)
    requires FoldOpts(c, opts).Ready?
    ensures (forall i :: 0 <= i < |opts| ==> opts[i].flag != "-d") ==> FoldOpts(c, opts).config.maxDepth == c.maxDepth
    ensures forall i ::
      (0 <= i < |opts| && opts[i].flag == "-d" && forall j :: i < j < |opts| ==> opts[j].flag != "-d")
      ==> ParseInt(opts[i].value) == Some(FoldOpts(c, opts).config.maxDepth)
    decreases opts
  {
    if opts != [] {
      var t := opts[1..];
      FoldDepth(Apply(c, opts[0]).config, t);
      assert forall i :: 0 <= i < |t| ==> t[i] == opts[i + 1];
      forall i | 0 <= i < |opts| && opts[i].flag == "-d" && (forall j :: i < j < |opts| ==> opts[j].flag != "-d")
        ensures ParseInt(opts[i].value) == Some(FoldOpts(c, opts).config.maxDepth)
      {
        if i > 0 {
          assert t[i - 1] == opts[i];
          assert forall j :: i - 1 < j < |t| ==> t[j].flag != "-d";
        } else {
          assert forall j :: 0 <= j < |t| ==> t[j].flag != "-d";
        }
      }
    }
  }

  /** The depth bound is 10 without `-d`, and otherwise the value of the last
      `-d` given. */
  lemma ConfigureDepth(args: seq<string>, opts: seq<Opt>)
    requires Configure(args, opts).Ready?
    ensures (forall i :: 0 <= i < |opts| ==> opts[i].flag != "-d") ==> Configure(args, opts).config.maxDepth == 10
    ensures forall i ::
      (0 <= i < |opts| && opts[i].flag == "-d" && forall j :: i < j < |opts| ==> opts[j].flag != "-d")
      ==> ParseInt(opts[i].value) == Some(Configure(args, opts).config.maxDepth)
  {
    FoldDepth(Defaults(args), opts);
  }

  /** The fold runs to the end exactly when no option stops it, and ends at
      help exactly when the first stopping option is `-h`. */
  lemma FoldOutcome(c: Config, opts: seq<Opt>)
    ensures FoldOpts(c, opts).Ready? <==> forall i :: 0 <= i < |opts| ==> !Stops(opts[i])
    ensures FoldOpts(c, opts) == Help <==>
      exists i :: 0 <= i < |opts| && opts[i].flag == "-h" && forall j :: 0 <= j < i ==> !Stops(opts[j])
  {
    FoldReady(c, opts);
    FoldHelp(c, opts);
  }

  lemma {:induction false} FoldReady(c: Config, opts: seq<Opt>)
    ensures FoldOpts(c, opts).Ready? <==> forall i :: 0 <= i < |opts| ==> !Stops(opts[i])
    decreases opts
  {
    if opts != [] {
      var t := opts[1..];
      if !Stops(opts[0]) {
        FoldReady(Apply(c, opts[0]).config, t);
        assert forall i :: 0 <= i < |t| ==> t[i] == opts[i + 1];
        assert forall i :: 0 < i < |opts| ==> opts[i] == t[i - 1];
      }
    }
  }

  lemma {:induction false} FoldHelp(c: Config, opts: seq<Opt>)
    ensures FoldOpts(c, opts) == Help <==>
      exists i :: 0 <= i < |opts| && opts[i].flag == "-h" && forall j :: 0 <= j < i ==> !Stops(opts[j])
    decreases opts
  {
    if opts != [] {
      var t := opts[1..];
      if !Stops(opts[0]) {
        FoldHelp(Apply(c, opts[0]).config, t);
        if FoldOpts(c, opts) == Help {
          var i :| 0 <= i < |t| && t[i].flag == "-h" && forall j :: 0 <= j < i ==> !Stops(t[j]);
          assert opts[i + 1] == t[i];
          forall j | 0 <= j < i + 1
            ensures !Stops(opts[j])
          {
            if j > 0 { assert opts[j] == t[j - 1]; }
          }
        }
        if exists i :: 0 <= i < |opts| && opts[i].flag == "-h" && forall j :: 0 <= j < i ==> !Stops(opts[j]) {
          var i :| 0 <= i < |opts| && opts[i].flag == "-h" && forall j :: 0 <= j < i ==> !Stops(opts[j]);
          assert i > 0;
          assert t[i - 1] == opts[i];
          forall j | 0 <= j < i - 1
            ensures !Stops(t[j])
          {
            assert t[j] == opts[j + 1];
          }
        }
      }
    }
  }

  lemma ConfigureOutcome(args: seq<string>, opts: seq<Opt>)
    ensures Configure(args, opts).Ready? <==> forall i :: 0 <= i < |opts| ==> !Stops(opts[i])
    ensures Configure(args, opts) == Help <==>
      exists i :: 0 <= i < |opts| && opts[i].flag == "-h" && forall j :: 0 <= j < i ==> !Stops(opts[j])
  {
    FoldOutcome(Defaults(args), opts);
  }

  lemma {:induction false} FoldIgnores(c: Config, a: seq<Opt>, o: Opt, b: seq<Opt>)
    requires o.flag != "-c" && o.flag != "-d" && o.flag != "-h"
    ensures FoldOpts(c, a + [o] + b) == FoldOpts(c, a + b)
    decreases a
  {
    if a == [] {
      assert a + [o] + b == [o] + b;
      assert ([o] + b)[1..] == b;
      assert a + b == b;
    } else {
      assert (a + [o] + b)[0] == a[0] && (a + b)[0] == a[0];
      assert (a + [o] + b)[1..] == a[1..] + [o] + b;
      assert (a + b)[1..] == a[1..] + b;
      if Apply(c, a[0]).Ready? {
        FoldIgnores(Apply(c, a[0]).config, a[1..], o, b);
      }
    }
  }

  /** An option other than the three short ones compared, such as any long
      option, has no effect wherever it stands. */
  lemma IgnoredOption(args: seq<string>, a: seq<Opt>, o: Opt, b: seq<Opt>)
    requires o.flag != "-c" && o.flag != "-d" && o.flag != "-h"
    ensures Configure(args, a + [o] + b) == Configure(args, a + b)
  {
    FoldIgnores(Defaults(args), a, o, b);
  }

  /** As intended: `-d` followed by an integer sets the depth bound to it. */
  lemma DepthOptionSetsBound(args: seq<string>, n: int)
    ensures Configure(args, [Opt("-d", ShowInt(n))]) == Ready(Defaults(args).(maxDepth := n))
  {
    ParseShowInt(n);
    var o := Opt("-d", ShowInt(n));
    assert Apply(Defaults(args), o) == Ready(Defaults(args).(maxDepth := n));
    assert [o][1..] == [];
    assert FoldOpts(Defaults(args), [o]) == FoldOpts(Defaults(args).(maxDepth := n), []);
  }

  /** The depth setting as the script keeps it: the integer default, or the
      raw string value of the last `-d`. */
  datatype DepthAsWritten = IntDepth(n: int) | RawDepth(s: string)

  /** The option loop of main as written, from the depth setting `m` so far:
      `-d` stores its raw string and never stops the loop, `-h` prints usage
      and exits (None here), every other option leaves the depth alone. */
  function LoopAsWritten(m: DepthAsWritten, opts: seq<Opt>): Option<DepthAsWritten>
    decreases opts
  {
    if opts == [] then Some(m)
    else if opts[0].flag == "-h" then None
    else LoopAsWritten(if opts[0].flag == "-d" then RawDepth(opts[0].value) else m, opts[1..])
  }

  function OptionLoopAsWritten(opts: seq<Opt>): Option<DepthAsWritten> {
    LoopAsWritten(IntDepth(DefaultMaxDepth), opts)
  }

  /** As written, the loop exits at usage exactly when `-h` occurs anywhere,
      whatever precedes it. */
  lemma {:induction false} LoopAsWrittenHelp(m: DepthAsWritten, opts: seq<Opt>)
    ensures LoopAsWritten(m, opts).None? <==> exists i :: 0 <= i < |opts| && opts[i].flag == "-h"
    decreases opts
  {
    if opts != [] && opts[0].flag != "-h" {
      var m1 := if opts[0].flag == "-d" then RawDepth(opts[0].value) else m;
      LoopAsWrittenHelp(m1, opts[1..]);
      if exists i :: 0 <= i < |opts| && opts[i].flag == "-h" {
        var i :| 0 <= i < |opts| && opts[i].flag == "-h";
        assert opts[1..][i - 1] == opts[i];
      }
      if exists i :: 0 <= i < |opts[1..]| && opts[1..][i].flag == "-h" {
        var i :| 0 <= i < |opts[1..]| && opts[1..][i].flag == "-h";
        assert opts[i + 1] == opts[1..][i];
      }
    }
  }

  /** As written, once a raw string is stored, or a `-d` is still to come, the
      loop ends at usage or with a raw string bound. */
  lemma {:induction false} LoopAsWrittenRaw(m: DepthAsWritten, opts: seq<Opt>)
    requires m.RawDepth? || exists i :: 0 <= i < |opts| && opts[i].flag == "-d"
    ensures LoopAsWritten(m, opts).None? || LoopAsWritten(m, opts).value.RawDepth?
    decreases opts
  {
    if opts != [] && opts[0].flag != "-h" {
      var m1 := if opts[0].flag == "-d" then RawDepth(opts[0].value) else m;
      if !m1.RawDepth? {
        var i :| 0 <= i < |opts| && opts[i].flag == "-d";
        assert opts[1..][i - 1] == opts[i];
      }
      LoopAsWrittenRaw(m1, opts[1..]);
    }
  }

  /** The walk's first test, `depth >= max_depth`, as Python 3 evaluates it:
      comparing an int with a str raises TypeError (None here). */
  function TooDeepAsWritten(depth: int, m: DepthAsWritten): Option<bool> {
    match m
    case IntDepth(n) => Some(depth >= n)
    case RawDepth(_) => None
  }

  /** As written, with no `-h` any `-d` makes the walk's first comparison
      raise, before a single directory is looked at; with a `-h` the program
      prints usage and exits before walking at all. */
  lemma DepthOptionAsWrittenFails(opts: seq<Opt>)
    requires exists i :: 0 <= i < |opts| && opts[i].flag == "-d"
    ensures OptionLoopAsWritten(opts).None? <==> exists i :: 0 <= i < |opts| && opts[i].flag == "-h"
    ensures OptionLoopAsWritten(opts).Some? ==> TooDeepAsWritten(0, OptionLoopAsWritten(opts).value) == None
  {
    LoopAsWrittenHelp(IntDepth(DefaultMaxDepth), opts);
    LoopAsWrittenRaw(IntDepth(DefaultMaxDepth), opts);
  }

  /** The `-d 10` of the usage text, alone: as written the walk fails on it,
      as intended the bound is 10. */
  lemma DepthTenExample(args: seq<string>)
    ensures OptionLoopAsWritten([Opt("-d", "10")]) == Some(RawDepth("10"))
    ensures TooDeepAsWritten(0, RawDepth("10")) == None
    ensures Configure(args, [Opt("-d", "10")]) == Ready(Defaults(args))
  {
    DepthOptionSetsBound(args, 10);
    assert ShowInt(10) == "10";
    var opts := [Opt("-d", "10")];
    assert opts[1..] == [];
  }

  /** A `-h` after a `-d`, say `-d 5 -h`: as written and as intended alike,
      the program prints usage and exits without walking. */
  lemma HelpAfterDepthExample(args: seq<string>)
    ensures OptionLoopAsWritten([Opt("-d", "5"), Opt("-h", "")]) == None
    ensures Configure(args, [Opt("-d", "5"), Opt("-h", "")]) == Help
  {
    var opts := [Opt("-d", "5"), Opt("-h", "")];
    assert opts[1..] == [Opt("-h", "")];
    assert ParseInt("5") == Some(5) by { ParseShowInt(5); assert ShowInt(5) == "5"; }
  }
}
