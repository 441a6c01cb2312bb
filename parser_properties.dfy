/** Properties of the command-line parser, proved about the fold `Run` and
    its independent description `Expected`. */
module ParserProperties {
  import opened CRuntime
  import opened CommandLine

  /** How the last argument of a non-empty list decides `LastWith`. */
  lemma LastWithSnoc(init: seq<seq<char>>, last: seq<char>, f: char)
    ensures LastWith(init + [last], f) == if FlagOf(last) == f then Some(last) else LastWith(init, f)
  {
    assert (init + [last])[..|init|] == init;
  }

  /** With every address operand fitting, the loop leaves each output as the
      last argument carrying its letter sets it, and untouched when no
      argument carries it. */
  lemma {:induction false} RunMatchesLastOccurrence(c: Config, args: seq<seq<char>>, size: nat)
    requires Fits(args, size)
    ensures Run(c, args, size) == Completed(Expected(c, args))
  {
    if args != [] {
      var init, last := args[..|args| - 1], args[|args| - 1];
      assert args == init + [last];
      assert Fits(init, size);
      RunMatchesLastOccurrence(c, init, size);
      var d := Expected(c, init);
      LastWithSnoc(init, last, 'a');
      LastWithSnoc(init, last, 'p');
      LastWithSnoc(init, last, 'r');
      LastWithSnoc(init, last, 't');
      assert last in args;
      assert Step(d, last, size) == Some(Expected(c, args));
    }
  }

  /** The loop stops early exactly when some address operand does not fit. */
  lemma {:induction false} AbortsIffOperandTooLong(c: Config, args: seq<seq<char>>, size: nat)
    ensures Run(c, args, size).Aborted? <==> !Fits(args, size)
  {
    if args != [] {
      var init := args[..|args| - 1];
      var last := args[|args| - 1];
      assert args == init + [last];
      AbortsIffOperandTooLong(c, init, size);
      if Fits(init, size) {
        RunMatchesLastOccurrence(c, init, size);
      }
    }
  }

  /** Once the loop has stopped, later arguments change nothing. */
  lemma {:induction false} AbortIsFinal(c: Config, xs: seq<seq<char>>, ys: seq<seq<char>>, size: nat)
    requires Run(c, xs, size).Aborted?
    ensures Run(c, xs + ys, size) == Run(c, xs, size)
  {
    if ys == [] {
      assert xs + ys == xs;
    } else {
      var init := ys[..|ys| - 1];
      assert (xs + ys)[..|xs + ys| - 1] == xs + init;
      AbortIsFinal(c, xs, init, size);
    }
  }

  /** An argument whose letter is `?` or unrecognised can be dropped from any
      position without changing the outcome. */
  lemma {:induction false} InertArgument(c: Config, xs: seq<seq<char>>, a: seq<char>, ys: seq<seq<char>>, size: nat)
    requires FlagOf(a) !in {'a', 'p', 'r', 't'}
    ensures Run(c, xs + [a] + ys, size) == Run(c, xs + ys, size)
  {
    if ys == [] {
      assert (xs + [a] + ys)[..|xs|] == xs;
      assert xs + ys == xs;
    } else {
      var init := ys[..|ys| - 1];
      assert (xs + [a] + ys)[..|xs + [a] + ys| - 1] == xs + [a] + init;
      assert (xs + ys)[..|xs + ys| - 1] == xs + init;
      InertArgument(c, xs, a, init, size);
    }
  }

  /** Two arguments that agree from their second character on. */
  predicate SameFromSecond(a: seq<char>, b: seq<char>) {
    |a| >= 1 && |b| >= 1 && a[1..] == b[1..]
  }

  /** Two arguments that agree from their second character on have the same
      letter and the same operand. */
  lemma SameLetterAndOperand(a: seq<char>, b: seq<char>)
    requires SameFromSecond(a, b)
    ensures FlagOf(a) == FlagOf(b) && Operand(a) == Operand(b)
  {
    if |a| >= 2 {
      assert a[1] == a[1..][0] == b[1..][0] == b[1];
      assert a[2..] == a[1..][1..] == b[1..][1..] == b[2..];
    }
  }

  /** The loop never looks at an argument's first character. */
  lemma {:induction false} RunIgnoresFirstCharacters(c: Config, args: seq<seq<char>>, other: seq<seq<char>>, size: nat)
    requires |args| == |other|
    requires forall j :: 0 <= j < |args| ==> SameFromSecond(args[j], other[j])
    ensures Run(c, args, size) == Run(c, other, size)
  {
    if args != [] {
      var n := |args| - 1;
      SameLetterAndOperand(args[n], other[n]);
      RunIgnoresFirstCharacters(c, args[..n], other[..n], size);
    }
  }

  /** `argv[0]` is never interpreted and no argument's first character is
      checked: `xp80` sets the port exactly as `-p80` does. */
  lemma ParseReadsFromSecondCharacter(c: Config, argv: seq<seq<char>>, other: seq<seq<char>>, size: nat)
    requires |argv| == |other|
    requires forall j :: 1 <= j < |argv| ==> SameFromSecond(argv[j], other[j])
    ensures Parse(c, argv, size) == Parse(c, other, size)
  {
    var args, oargs := ProgramArgs(argv), ProgramArgs(other);
    forall j | 0 <= j < |args|
      ensures SameFromSecond(args[j], oargs[j])
    {
      assert args[j] == argv[j + 1] && oargs[j] == other[j + 1];
    }
    RunIgnoresFirstCharacters(c.(recv := 0), args, oargs, size);
  }

  /** Swapping two neighbouring arguments does not change which argument is
      the last to carry any given letter, when their letters differ. */
  lemma {:induction false} LastWithSwap(xs: seq<seq<char>>, a: seq<char>, b: seq<char>, ys: seq<seq<char>>, f: char)
    requires FlagOf(a) != FlagOf(b)
    ensures LastWith(xs + [a, b] + ys, f) == LastWith(xs + [b, a] + ys, f)
  {
    if ys == [] {
      assert xs + [a, b] + ys == (xs + [a]) + [b];
      assert xs + [b, a] + ys == (xs + [b]) + [a];
      LastWithSnoc(xs + [a], b, f);
      LastWithSnoc(xs + [b], a, f);
      LastWithSnoc(xs, a, f);
      LastWithSnoc(xs, b, f);
    } else {
      var init, last := ys[..|ys| - 1], ys[|ys| - 1];
      assert xs + [a, b] + ys == (xs + [a, b] + init) + [last];
      assert xs + [b, a] + ys == (xs + [b, a] + init) + [last];
      LastWithSnoc(xs + [a, b] + init, last, f);
      LastWithSnoc(xs + [b, a] + init, last, f);
      LastWithSwap(xs, a, b, init, f);
    }
  }

  /** The outcome depends only on the last occurrence of each letter, so two
      neighbouring arguments with different letters can trade places. */
  lemma ReorderDistinctFlags(c: Config, xs: seq<seq<char>>, a: seq<char>, b: seq<char>, ys: seq<seq<char>>, size: nat)
    requires FlagOf(a) != FlagOf(b)
    requires Fits(xs + [a, b] + ys, size)
    ensures Run(c, xs + [a, b] + ys, size) == Run(c, xs + [b, a] + ys, size)
  {
    var u, v := xs + [a, b] + ys, xs + [b, a] + ys;
    forall x | x in v
      ensures x in u
    {
    }
    RunMatchesLastOccurrence(c, u, size);
    RunMatchesLastOccurrence(c, v, size);
    LastWithSwap(xs, a, b, ys, 'a');
    LastWithSwap(xs, a, b, ys, 'p');
    LastWithSwap(xs, a, b, ys, 'r');
    LastWithSwap(xs, a, b, ys, 't');
  }

  /** With `main`'s defaults and a 256-character address buffer: the port is
      40061 unless some argument has letter `p`, the TTL is 1 unless some
      argument has letter `t`, the address is "" unless some argument has
      letter `a`, and receiver mode is on exactly when some argument has
      letter `r`. */
  lemma MainDefaults(argv: seq<seq<char>>)
    requires Fits(ProgramArgs(argv), AddrBufferSize)
    ensures Parse(Defaults, argv, AddrBufferSize).Completed?
    ensures var cfg := Parse(Defaults, argv, AddrBufferSize).cfg;
            var args := ProgramArgs(argv);
            && ((forall a | a in args :: FlagOf(a) != 'p') ==> cfg.port == DefaultPort)
            && ((forall a | a in args :: FlagOf(a) != 't') ==> cfg.ttl == DefaultTtl)
            && ((forall a | a in args :: FlagOf(a) != 'a') ==> cfg.addr == [])
            && (cfg.recv == 1 <==> exists a | a in args :: FlagOf(a) == 'r')
            && (cfg.recv == 0 || cfg.recv == 1)
  {
    RunMatchesLastOccurrence(Defaults, ProgramArgs(argv), AddrBufferSize);
  }

  /** A command line with a single argument after the program name. */
  lemma ParseSingle(c: Config, name: seq<char>, arg: seq<char>, size: nat)
    ensures Parse(c, [name, arg], size) ==
            match Step(c.(recv := 0), arg, size)
            case None => Aborted(c.(recv := 0, addr := []))
            case Some(e) => Completed(e)
  {
    var d := c.(recv := 0);
    assert ProgramArgs([name, arg]) == [arg];
    assert [arg][..0] == [];
    assert Run(d, [], size) == Completed(d);
    assert Run(d, [arg], size) == match Step(d, arg, size)
      case None => Aborted(d.(addr := []))
      case Some(e) => Completed(e);
  }

  /** The letter and operand of an argument written as a dash, a letter and text. */
  lemma FlagAndOperand(f: char, s: seq<char>)
    ensures FlagOf(['-', f] + s) == f && Operand(['-', f] + s) == s
  {
    assert (['-', f] + s)[2..] == s;
  }

  /** Numeric operands are not range checked: any value `long` can hold,
      negative or far above 65535, becomes the port or TTL as written. */
  lemma NumericOperandUnchecked(c: Config, name: seq<char>, f: char, n: int, size: nat)
    requires f == 'p' || f == 't'
    requires LongMin <= n <= LongMax
    ensures var out := Parse(c, [name, ['-', f] + Spelled(n)], size);
            out == Completed(if f == 'p' then c.(recv := 0, port := n) else c.(recv := 0, ttl := n))
  {
    FlagAndOperand(f, Spelled(n));
    assert Spelled(n) + [] == Spelled(n);
    StrToLOfSpelling(n, []);
    ParseSingle(c, name, ['-', f] + Spelled(n), size);
  }

  /** A numeric operand in which no digit follows the leading white space
      and the optional sign, such as in `-pabc`, `-pa1`, `-t-x5` or a bare
      `-t`, sets the value to 0. */
  lemma NonNumericOperandIsZero(c: Config, name: seq<char>, f: char, s: seq<char>, size: nat)
    requires f == 'p' || f == 't'
    requires EmptySubject(s)
    ensures var out := Parse(c, [name, ['-', f] + s], size);
            out == Completed(if f == 'p' then c.(recv := 0, port := 0) else c.(recv := 0, ttl := 0))
  {
    FlagAndOperand(f, s);
    StrToLWithoutDigits(s);
    ParseSingle(c, name, ['-', f] + s, size);
  }

  /** `-t5` with `main`'s defaults sets the TTL to 5 and nothing else. */
  lemma TtlScenario()
    ensures Parse(Defaults, ["broadcast", "-t5"], AddrBufferSize) == Completed(Defaults.(ttl := 5))
  {
    assert "-t5" == ['-', 't'] + Spelled(5);
    NumericOperandUnchecked(Defaults, "broadcast", 't', 5, AddrBufferSize);
  }

  /** `-z` with `main`'s defaults is reported and changes nothing. */
  lemma UnknownFlagScenario()
    ensures Parse(Defaults, ["broadcast", "-z"], AddrBufferSize) == Completed(Defaults)
  {
    assert FlagOf("-z") == 'z';
    ParseSingle(Defaults, "broadcast", "-z", AddrBufferSize);
  }

  /** `xp80` sets port 80 exactly as `-p80` does. */
  lemma FirstCharacterScenario()
    ensures Parse(Defaults, ["broadcast", "xp80"], AddrBufferSize) == Completed(Defaults.(port := 80))
  {
    assert "-p80" == ['-', 'p'] + Spelled(80);
    NumericOperandUnchecked(Defaults, "broadcast", 'p', 80, AddrBufferSize);
    ParseReadsFromSecondCharacter(Defaults, ["broadcast", "xp80"], ["broadcast", "-p80"], AddrBufferSize);
  }

  /** `-pabc` sets port 0. */
  lemma NonNumericScenario()
    ensures Parse(Defaults, ["broadcast", "-pabc"], AddrBufferSize) == Completed(Defaults.(port := 0))
  {
    assert "-pabc" == ['-', 'p'] + "abc";
    NonNumericOperandIsZero(Defaults, "broadcast", 'p', "abc", AddrBufferSize);
  }

  /** `-t-x5` sets the TTL to 0: a sign not followed by a digit, and the
      digit further on is never reached. */
  lemma SignWithoutDigitsScenario()
    ensures Parse(Defaults, ["broadcast", "-t-x5"], AddrBufferSize) == Completed(Defaults.(ttl := 0))
  {
    assert "-t-x5" == ['-', 't'] + "-x5";
    NonNumericOperandIsZero(Defaults, "broadcast", 't', "-x5", AddrBufferSize);
  }
}
