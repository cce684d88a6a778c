/** The get_cli_args action plugin: it reads the playbook command line, strips full paths from
    the program name, removes inline JSON extra-vars payloads, extracts the value stored under
    `semaphore_vars`, and adds the results to the task result. */
module GetCliArgs {
  import opened Json
  import opened Text
  import opened Sanitizer

  /** A value in the task result map. The entries the host framework put there before the
      plugin ran are opaque to the plugin. */
  datatype Entry =
    | BoolValue(b: bool)
    | ListValue(items: seq<string>)
    | StrValue(s: string)
    | JsonData(v: Value)
    | NoneValue
    | HostData(tag: string)

  const ChangedKey: string := "changed"
  const ArgvKey: string := "ansible_playbook_argv"
  const CmdKey: string := "ansible_playbook_cmd"
  const VarsKey: string := "semaphore_vars"

  /** The argument vector after the program name lost its directories. */
  function NormalizedArgv(argv: seq<string>): (r: seq<string>)
    ensures |r| == |argv|
    ensures |argv| > 0 ==> r[0] == Basename(argv[0]) && '/' !in r[0]
    ensures forall i :: 1 <= i < |argv| ==> r[i] == argv[i]
  {
    if |argv| > 0 && '/' in argv[0] then argv[0 := Basename(argv[0])] else argv
  }

  lemma NormalizedArgvIdempotent(argv: seq<string>)
    ensures NormalizedArgv(NormalizedArgv(argv)) == NormalizedArgv(argv)
  {
  }

  /** Step 1: the program name is rewritten in place to its basename when it contains `/`;
      no other element changes. */
  method NormalizeProgramName(argv: array<string>)
    modifies argv
    ensures argv[..] == NormalizedArgv(old(argv[..]))
  {
    if argv.Length > 0 && '/' in argv[0] {
      argv[0] := Basename(argv[0]);
    }
  }

  /** Step 2: one left-to-right pass over the vector. `skipNext` marks a token already
      consumed as the payload of the flag before it. */
  method ScanArgv(argv: array<string>, decode: ObjectDecoder) returns (cleaned: seq<string>, data: Value)
    ensures cleaned == Clean(argv[..])
    ensures data == Captured(argv[..], decode)
  {
    ghost var all := argv[..];
    ghost var rest := all;  // the tokens the scan has not consumed yet
    cleaned := [];
    data := Object(map[]);
    var skipNext := false;
    var i := 0;
    while i < argv.Length
      invariant 0 <= i <= argv.Length
      invariant skipNext ==> 0 < i < argv.Length
      invariant rest == all[if skipNext then i + 1 else i..]
      invariant cleaned + Clean(rest) == Clean(all)
      invariant Fold(Payloads(Segments(rest)), decode, data) == Captured(all, decode)
    {
      var arg := argv[i];
      if skipNext {
        skipNext := false;
      } else if IsExtraVarsFlag(arg) && i + 1 < argv.Length {
        var nextArg := argv[i + 1];
        assert rest[0] == arg && rest[1] == nextArg && rest[2..] == all[i + 2..];
        if IsJsonPayload(nextArg) {
          DroppedPairStep(rest, decode, data);
          var decoded := decode(nextArg);
          if decoded.Some? && ReservedKey in decoded.value {
            data := decoded.value[ReservedKey];
          }
          skipNext := true;
        } else {
          // a file reference or key=value payload stays, with its flag
          KeptPairStep(cleaned, rest, decode, data);
          cleaned := cleaned + [arg, nextArg];
          skipNext := true;
        }
        rest := rest[2..];
      } else {
        assert rest[0] == arg && rest[1..] == all[i + 1..];
        KeptSingleStep(cleaned, rest, decode, data);
        if StartsWith(arg, "-e") && '=' in arg && !StartsWith(arg, "-e@") {
          // -ekey=value
          cleaned := cleaned + [arg];
        } else if StartsWith(arg, "-e@") {
          // -e@file
          cleaned := cleaned + [arg];
        } else {
          cleaned := cleaned + [arg];
        }
        rest := rest[1..];
      }
      i := i + 1;
    }
  }

  /** Step 3: the four entries added to the result the host framework returned. */
  function BuildResult(base: map<string, Entry>, cleaned: seq<string>, data: Value): (r: map<string, Entry>)
    ensures r.Keys == base.Keys + {ChangedKey, ArgvKey, CmdKey, VarsKey}
    ensures r[ChangedKey] == BoolValue(false)
    ensures r[ArgvKey] == ListValue(cleaned)
    ensures r[CmdKey] == StrValue(Join(cleaned, ' '))
    ensures r[VarsKey] == if Truthy(data) then JsonData(data) else NoneValue
    ensures forall k :: k in base && k !in {ChangedKey, ArgvKey, CmdKey, VarsKey} ==> r[k] == base[k]
  {
    base + map[
      ChangedKey := BoolValue(false),
      ArgvKey := ListValue(cleaned),
      CmdKey := StrValue(Join(cleaned, ' ')),
      VarsKey := (if Truthy(data) then JsonData(data) else NoneValue)
    ]
  }

  /** The whole plugin, as a function of the incoming vector, the decoder and the result the
      host framework returned. */
  function Sanitize(argv: seq<string>, decode: ObjectDecoder, base: map<string, Entry>): map<string, Entry> {
    var normalized := NormalizedArgv(argv);
    BuildResult(base, Clean(normalized), Captured(normalized, decode))
  }

  method Run(argv: array<string>, decode: ObjectDecoder, base: map<string, Entry>) returns (result: map<string, Entry>)
    modifies argv
    ensures argv[..] == NormalizedArgv(old(argv[..]))
    ensures result == Sanitize(old(argv[..]), decode, base)
  {
    NormalizeProgramName(argv);
    var cleaned, data := ScanArgv(argv, decode);
    result := BuildResult(base, cleaned, data);
  }

  // ---------------------------------------------------------------------------------------
  // Properties of the whole plugin

  /** The command string splits back into the cleaned vector when no argument holds a space
      and something is left after cleaning. */
  lemma CommandSplitsBack(argv: seq<string>, decode: ObjectDecoder, base: map<string, Entry>)
    requires forall i :: 0 <= i < |argv| ==> ' ' !in argv[i]
    requires Clean(NormalizedArgv(argv)) != []
    ensures Sanitize(argv, decode, base)[CmdKey] == StrValue(Join(Clean(NormalizedArgv(argv)), ' '))
    ensures Split(Sanitize(argv, decode, base)[CmdKey].s, ' ') == Clean(NormalizedArgv(argv))
  {
    var normalized := NormalizedArgv(argv);
    var cleaned := Clean(normalized);
    forall i | 0 <= i < |normalized| ensures ' ' !in normalized[i] {
      if ' ' in normalized[i] && i == 0 {
        BasenameChars(argv[0], ' ');
      }
    }
    CleanIsSubsequence(normalized);
    SplitJoin(cleaned, ' ');
  }

  /** Without an extra-vars flag the reported vector is the normalized input and no variables
      are reported. */
  lemma NoFlagsNoChange(argv: seq<string>, decode: ObjectDecoder, base: map<string, Entry>)
    requires forall i :: 0 <= i < |argv| ==> !IsExtraVarsFlag(NormalizedArgv(argv)[i])
    ensures Sanitize(argv, decode, base)[ArgvKey] == ListValue(NormalizedArgv(argv))
    ensures Sanitize(argv, decode, base)[VarsKey] == NoneValue
  {
    var normalized := NormalizedArgv(argv);
    CleanWithoutFlags(normalized);
    assert Captured(normalized, decode) == Object(map[]);
  }

  /** The reported variables are the value under the reserved key in the last payload that
      decodes and holds it, unless that value is falsy; with no such payload none are
      reported. */
  lemma ReportedVariables(argv: seq<string>, decode: ObjectDecoder, base: map<string, Entry>)
    ensures var capture := LastCapture(Payloads(Segments(NormalizedArgv(argv))), decode);
      Sanitize(argv, decode, base)[VarsKey] ==
        if capture.Some? && Truthy(capture.value) then JsonData(capture.value) else NoneValue
  {
    CapturedIsLast(NormalizedArgv(argv), decode);
  }

  // ---------------------------------------------------------------------------------------
  // Worked examples, stated on the vector and the value that BuildResult reports

  /** A full program path and a JSON payload with the reserved key. */
  lemma ExamplePathAndPayload(argv: seq<string>, decode: ObjectDecoder)
    requires argv == ["/usr/bin/ansible-playbook", "--extra-vars", "{\"semaphore_vars\": {\"a\": 1}}"]
    requires decode(argv[2]) == Some(map["semaphore_vars" := Object(map["a" := Int(1)])])
    ensures Clean(NormalizedArgv(argv)) == ["ansible-playbook"]
    ensures Join(Clean(NormalizedArgv(argv)), ' ') == "ansible-playbook"
    ensures Captured(NormalizedArgv(argv), decode) == Object(map["a" := Int(1)])
  {
    var normalized := NormalizedArgv(argv);
    assert normalized == ["ansible-playbook", argv[1], argv[2]] by {
      assert Basename(argv[0]) == "ansible-playbook";
    }
    ExampleCapturedPayload(normalized, decode);
  }

  /** The basename step runs before the scan, so a program path whose last component is a
      flag spelling makes the program name a flag that consumes the next token. */
  lemma ExampleProgramNameIsScanned(argv: seq<string>, decode: ObjectDecoder)
    requires argv == ["/opt/-e", "{}"]
    ensures Clean(argv) == argv
    ensures Clean(NormalizedArgv(argv)) == []
  {
    assert Clean(argv) == argv by {
      SingleStep(argv);
      SingleStep(argv[1..]);
      assert argv[1..][1..] == [];
    }
    assert NormalizedArgv(argv) == ["-e", argv[1]] by {
      assert Basename(argv[0]) == "-e";
    }
    PairStep(NormalizedArgv(argv));
    assert NormalizedArgv(argv)[2..] == [];
  }
}
