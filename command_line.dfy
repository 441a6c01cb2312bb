/** What `parseCommandLine` (Broadcast/Broadcast/Broadcast.cpp) computes,
    stated as values: one step per argument, the whole run as a fold over
    the arguments after the program name, and an independent description
    by the last occurrence of each flag letter. */
module CommandLine {
  import opened CRuntime

  /** The values `main` gives its locals before parsing. */
  const DefaultPort: int := 40061
  const DefaultTtl: int := 1
  const AddrBufferSize: nat := 256

  datatype Option<T> = None | Some(value: T)

  /** The caller's variables the parser writes through its pointers:
      `*pnPort`, `*pnTtl`, `*pbRecv` and the string held in `sAddr`. */
  datatype Config = Config(port: int, ttl: int, recv: int, addr: seq<char>)

  /** The defaults of `main`: `sOvrAddr` is zero-filled, so it holds "". */
  const Defaults: Config := Config(DefaultPort, DefaultTtl, 0, [])

  /** A run either goes through every argument or stops where `strcpy_s`
      found the address operand too long for the buffer; the Microsoft
      runtime's default handler for that constraint violation ends the
      process. Either way `cfg` is what the caller's variables hold. */
  datatype Outcome = Completed(cfg: Config) | Aborted(cfg: Config)

  /** An argument as the C runtime hands it over, its terminating NUL not
      included. The parser reads its second character, which for an empty
      argument lies past the terminator; that read is undefined in C, so
      an argument is taken to have at least one character. */
  predicate WellFormedArg(arg: seq<char>) {
    |arg| >= 1 && '\0' !in arg
  }

  /** `argv[0]` is never read, so only the arguments after it are constrained. */
  predicate WellFormed(argv: seq<seq<char>>) {
    forall i :: 1 <= i < |argv| ==> WellFormedArg(argv[i])
  }

  /** `argv[1..argc-1]`: the arguments the loop visits. */
  function ProgramArgs(argv: seq<seq<char>>): seq<seq<char>> {
    if |argv| == 0 then [] else argv[1..]
  }

  /** `argv[i][1]`; for a one-character argument that is its terminating NUL. */
  function FlagOf(arg: seq<char>): char {
    if |arg| >= 2 then arg[1] else '\0'
  }

  /** `&argv[i][2]`, read only when the flag letter is a real character. */
  function Operand(arg: seq<char>): seq<char> {
    if |arg| >= 2 then arg[2..] else []
  }

  /** One pass of the loop body; `None` when `strcpy_s` reports a constraint
      violation. `?` displays the usage text and any other letter prints a
      diagnostic: neither touches the outputs. */
  function Step(c: Config, arg: seq<char>, size: nat): (r: Option<Config>)
    ensures r.None? <==> FlagOf(arg) == 'a' && |Operand(arg)| >= size
    ensures r.Some? ==> && (FlagOf(arg) != 'p' ==> r.value.port == c.port)
                        && (FlagOf(arg) != 't' ==> r.value.ttl == c.ttl)
                        && (FlagOf(arg) != 'r' ==> r.value.recv == c.recv)
                        && (FlagOf(arg) != 'a' ==> r.value.addr == c.addr)
    ensures r.Some? && FlagOf(arg) == 'r' ==> r.value.recv == 1
    ensures r.Some? && FlagOf(arg) == 'a' ==> |r.value.addr| < size
  {
    match FlagOf(arg)
    case 'a' => if |Operand(arg)| < size then Some(c.(addr := Operand(arg))) else None
    case 'p' => Some(c.(port := StrToL(Operand(arg))))
    case 'r' => Some(c.(recv := 1))
    case 't' => Some(c.(ttl := StrToL(Operand(arg))))
    case _ => Some(c)
  }

  /** The loop over `args` in order, starting from `c`, with an address
      buffer of `size` characters. On a violation `strcpy_s` has set the
      buffer's first character to NUL, so it then holds "". */
  function Run(c: Config, args: seq<seq<char>>, size: nat): (r: Outcome)
    ensures r.cfg.recv == c.recv || r.cfg.recv == 1
    ensures r.Completed? && r.cfg.addr != c.addr ==> |r.cfg.addr| < size
    ensures r.Aborted? ==> r.cfg.addr == []
  {
    if args == [] then Completed(c)
    else
      match Run(c, args[..|args| - 1], size)
      case Aborted(d) => Aborted(d)
      case Completed(d) =>
        match Step(d, args[|args| - 1], size)
        case None => Aborted(d.(addr := []))
        case Some(e) => Completed(e)
  }

  /** `parseCommandLine(argc, argv, ...)`: `*pbRecv` is reset to 0 first,
      then every argument after the program name is visited. */
  function Parse(c: Config, argv: seq<seq<char>>, size: nat): (r: Outcome)
    ensures r.cfg.recv == 0 || r.cfg.recv == 1
    ensures |argv| <= 1 ==> r == Completed(c.(recv := 0))
  {
    Run(c.(recv := 0), ProgramArgs(argv), size)
  }

  /** The last argument in `args` whose flag letter is `f`. */
  function LastWith(args: seq<seq<char>>, f: char): (r: Option<seq<char>>)
    ensures r.None? <==> forall a | a in args :: FlagOf(a) != f
    ensures r.Some? ==> FlagOf(r.value) == f
    ensures r.Some? ==> exists j :: 0 <= j < |args| && args[j] == r.value &&
                          forall k :: j < k < |args| ==> FlagOf(args[k]) != f
  {
    if args == [] then None
    else if FlagOf(args[|args| - 1]) == f then Some(args[|args| - 1])
    else
      var r := LastWith(args[..|args| - 1], f);
      assert args == args[..|args| - 1] + [args[|args| - 1]];
      r
  }

  /** No address operand is too long for a buffer of `size` characters. */
  predicate Fits(args: seq<seq<char>>, size: nat) {
    forall a | a in args && FlagOf(a) == 'a' :: |Operand(a)| < size
  }

  /** The outputs described without the loop: each one comes from the last
      argument carrying its letter, or keeps its value from `c`. */
  function Expected(c: Config, args: seq<seq<char>>): (r: Config)
    ensures (forall a | a in args :: FlagOf(a) != 'p') ==> r.port == c.port
    ensures (forall a | a in args :: FlagOf(a) != 't') ==> r.ttl == c.ttl
    ensures (forall a | a in args :: FlagOf(a) != 'a') ==> r.addr == c.addr
    ensures r.addr == c.addr || exists a | a in args && FlagOf(a) == 'a' :: r.addr == Operand(a)
    ensures r.recv == 1 <==> c.recv == 1 || exists a | a in args :: FlagOf(a) == 'r'
  {
    var port := match LastWith(args, 'p') case None => c.port case Some(a) => StrToL(Operand(a));
    var ttl := match LastWith(args, 't') case None => c.ttl case Some(a) => StrToL(Operand(a));
    var recv := if LastWith(args, 'r').Some? then 1 else c.recv;
    var addr := match LastWith(args, 'a') case None => c.addr case Some(a) => Operand(a);
    Config(port, ttl, recv, addr)
  }
}
