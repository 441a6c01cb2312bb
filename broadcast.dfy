/** The command-line parsing of Broadcast/Broadcast/Broadcast.cpp as the
    program runs it: `main`'s locals, updated in place through pointers by
    `parseCommandLine`. */
module Broadcast {
  import opened CRuntime
  import opened CommandLine
  import ParserProperties

  /** `main`'s `nPort`, `nTtl`, `bRecv` and the `sOvrAddr` buffer, whose
      length is the `nAddrSize` passed to the parser. */
  class Settings {
    var port: int
    var ttl: int
    var recv: int
    const addr: array<char>

    /** The string the address buffer holds together with the three integers. */
    function Current(): Config
      reads this, addr
    {
      Config(port, ttl, recv, CString(addr[..]))
    }

    /** The declarations of `main` before it parses: port 40061, TTL 1 and a
        zero-filled 256-character address buffer. `bRecv` is left
        uninitialised there; the parser always assigns it first. */
    constructor ()
      ensures port == DefaultPort && ttl == DefaultTtl
      ensures fresh(addr) && addr.Length == AddrBufferSize
      ensures forall k :: 0 <= k < addr.Length ==> addr[k] == '\0'
      ensures CString(addr[..]) == []
    {
      port, ttl, recv := DefaultPort, DefaultTtl, 0;
      addr := new char[AddrBufferSize](_ => '\0');
    }

    /** `parseCommandLine(argc, argv, &nPort, &nTtl, &bRecv, sOvrAddr,
        sizeof(sOvrAddr))`. Returns false when `strcpy_s` met an address
        operand too long for the buffer, at which point the process ends. */
    method ParseCommandLine(argv: seq<seq<char>>) returns (completed: bool)
      requires WellFormed(argv)
      modifies this, addr
      ensures completed == Parse(old(Current()), argv, addr.Length).Completed?
      ensures Current() == Parse(old(Current()), argv, addr.Length).cfg
      ensures (forall a | a in ProgramArgs(argv) :: FlagOf(a) != 'a') ==> addr[..] == old(addr[..])
    {
      ghost var args := ProgramArgs(argv);
      recv := 0;
      ghost var start := Current();
      var i := 1;
      while i < |argv|
        invariant 1 <= i && (|argv| >= 1 ==> i <= |argv|)
        invariant args == ProgramArgs(argv) && i - 1 <= |args|
        invariant Run(start, args[..i - 1], addr.Length) == Completed(Current())
        invariant (forall a | a in args[..i - 1] :: FlagOf(a) != 'a') ==> addr[..] == old(addr[..])
      {
        var arg := argv[i];
        assert args[..i] == args[..i - 1] + [arg];
        ghost var before := Current();
        match FlagOf(arg) {
        case 'a' =>
          var violation := StrCpyS(addr, Operand(arg));
          if violation {
            assert Run(start, args[..i], addr.Length) == Aborted(before.(addr := []));
            assert args == args[..i] + args[i..];
            ParserProperties.AbortIsFinal(start, args[..i], args[i..], addr.Length);
            return false;
          }
        case 'p' =>
          port := StrToL(Operand(arg));
        case 'r' =>
          recv := 1;
        case 't' =>
          ttl := StrToL(Operand(arg));
        case '?' =>
          // displayUsage(): console output only
        case _ =>
          // "Unknown command line argument": console output only
        }
        assert Run(start, args[..i], addr.Length) == Completed(Current());
        i := i + 1;
      }
      assert |argv| >= 1 ==> args[..i - 1] == args;
      return true;
    }
  }

  /** Lines 48-53 of `main`: declare the defaults, then parse into them.
      Parsing goes through exactly when every address operand fits in the
      256-character buffer, and then each setting comes from the last
      argument carrying its letter, or keeps `main`'s default. */
  method ConfigureFromCommandLine(argv: seq<seq<char>>) returns (s: Settings, completed: bool)
    requires WellFormed(argv)
    ensures fresh(s) && fresh(s.addr)
    ensures completed <==> Fits(ProgramArgs(argv), AddrBufferSize)
    ensures completed ==> s.Current() == Expected(Defaults, ProgramArgs(argv))
  {
    s := new Settings();
    completed := s.ParseCommandLine(argv);
    ParserProperties.AbortsIffOperandTooLong(Defaults, ProgramArgs(argv), AddrBufferSize);
    if completed {
      ParserProperties.RunMatchesLastOccurrence(Defaults, ProgramArgs(argv), AddrBufferSize);
    }
  }
}
