/** What the argument scan of the get_cli_args action plugin computes, as functions on the
    argument vector: which tokens it keeps and which JSON payloads it hands to the decoder. */
module Sanitizer {
  import opened Json
  import opened Text

  const LongFlag: string := "--extra-vars"
  const ShortFlag: string := "-e"
  /** The key whose value is extracted from an inline JSON payload. */
  const ReservedKey: string := "semaphore_vars"

  /** The two spellings of the extra-vars flag that take their payload from the next token. */
  predicate IsExtraVarsFlag(arg: string) {
    arg == LongFlag || arg == ShortFlag
  }

  /** A payload taken to be an inline JSON object. */
  predicate IsJsonPayload(arg: string) {
    |arg| > 0 && arg[0] == '{'
  }

  /** One step of the scan. */
  datatype Segment =
    | Payload(flag: string, json: string)     // flag and JSON object: both dropped
    | FlagValue(flag: string, value: string)  // flag and any other payload: both kept
    | Plain(arg: string)                      // a single token, kept

  function Tokens(seg: Segment): seq<string> {
    match seg
    case Payload(f, j) => [f, j]
    case FlagValue(f, v) => [f, v]
    case Plain(a) => [a]
  }

  function Flatten(segs: seq<Segment>): seq<string> {
    if |segs| == 0 then [] else Tokens(segs[0]) + Flatten(segs[1..])
  }

  /** The rule each step obeys. `last` says whether the step is the final one: a flag with no
      token after it can only be a plain token at the very end. */
  predicate SegmentOk(seg: Segment, last: bool) {
    match seg
    case Payload(f, j) => IsExtraVarsFlag(f) && IsJsonPayload(j)
    case FlagValue(f, v) => IsExtraVarsFlag(f) && !IsJsonPayload(v)
    case Plain(a) => !IsExtraVarsFlag(a) || last
  }

  predicate WellFormed(segs: seq<Segment>) {
    forall i :: 0 <= i < |segs| ==> SegmentOk(segs[i], i == |segs| - 1)
  }

  /** The left-to-right scan: a flag with a following token consumes that token, whatever the
      token is; every other token stands alone. */
  function Segments(argv: seq<string>): seq<Segment> {
    if |argv| == 0 then []
    else if IsExtraVarsFlag(argv[0]) && |argv| > 1 then
      [if IsJsonPayload(argv[1]) then Payload(argv[0], argv[1]) else FlagValue(argv[0], argv[1])]
      + Segments(argv[2..])
    else
      [Plain(argv[0])] + Segments(argv[1..])
  }

  /** The tokens of every step except the JSON payload pairs. */
  function Kept(segs: seq<Segment>): seq<string> {
    if |segs| == 0 then []
    else (if segs[0].Payload? then [] else Tokens(segs[0])) + Kept(segs[1..])
  }

  /** The JSON payload tokens, in the order the scan meets them. */
  function Payloads(segs: seq<Segment>): seq<string> {
    if |segs| == 0 then []
    else (if segs[0].Payload? then [segs[0].json] else []) + Payloads(segs[1..])
  }

  /** The cleaned argument vector. */
  function Clean(argv: seq<string>): seq<string> {
    Kept(Segments(argv))
  }

  /** The captured value after one payload was handed to the decoder: replaced by the value
      under the reserved key when the decode succeeds and has that key, otherwise unchanged. */
  function Absorb(data: Value, decoded: Option<map<string, Value>>): Value {
    if decoded.Some? && ReservedKey in decoded.value then decoded.value[ReservedKey] else data
  }

  function Fold(payloads: seq<string>, decode: ObjectDecoder, data: Value): Value {
    if |payloads| == 0 then data else Fold(payloads[1..], decode, Absorb(data, decode(payloads[0])))
  }

  /** The captured value at the end of the scan, starting from an empty object. */
  function Captured(argv: seq<string>, decode: ObjectDecoder): Value {
    Fold(Payloads(Segments(argv)), decode, Object(map[]))
  }

  /** Reference definition of the capture: search the payloads from the last one backwards
      for one that decodes and holds the reserved key. */
  function LastCapture(payloads: seq<string>, decode: ObjectDecoder): Option<Value> {
    if |payloads| == 0 then None
    else
      var decoded := decode(payloads[|payloads| - 1]);
      if decoded.Some? && ReservedKey in decoded.value then Some(decoded.value[ReservedKey])
      else LastCapture(payloads[..|payloads| - 1], decode)
  }

  /** `x` can be obtained from `y` by deleting elements. */
  predicate IsSubsequence(x: seq<string>, y: seq<string>)
    decreases |y|
  {
    if |y| == 0 then |x| == 0
    else (|x| > 0 && x[0] == y[0] && IsSubsequence(x[1..], y[1..])) || IsSubsequence(x, y[1..])
  }

  /** No step is a flag left standing on its own, so the scan ends on a step boundary. */
  predicate Closed(segs: seq<Segment>) {
    forall i :: 0 <= i < |segs| ==> !(segs[i].Plain? && IsExtraVarsFlag(segs[i].arg))
  }

  /** One step of the scan at a flag that has a following token. */
  lemma PairStep(s: seq<string>)
    requires |s| > 1 && IsExtraVarsFlag(s[0])
    ensures Clean(s) == (if IsJsonPayload(s[1]) then [] else [s[0], s[1]]) + Clean(s[2..])
    ensures Payloads(Segments(s)) ==
            (if IsJsonPayload(s[1]) then [s[1]] else []) + Payloads(Segments(s[2..]))
  {
    var segs := Segments(s);
    assert segs[1..] == Segments(s[2..]);
  }

  /** One step of the scan at any other token. */
  lemma SingleStep(s: seq<string>)
    requires |s| > 0 && !(IsExtraVarsFlag(s[0]) && |s| > 1)
    ensures Clean(s) == [s[0]] + Clean(s[1..])
    ensures Payloads(Segments(s)) == Payloads(Segments(s[1..]))
  {
    var segs := Segments(s);
    assert segs[1..] == Segments(s[1..]);
  }

  lemma FoldCons(x: string, payloads: seq<string>, decode: ObjectDecoder, data: Value)
    ensures Fold([x] + payloads, decode, data) == Fold(payloads, decode, Absorb(data, decode(x)))
  {
    assert ([x] + payloads)[0] == x && ([x] + payloads)[1..] == payloads;
  }

  /** The scan drops a flag and its `{` payload, and the payload is decoded next. */
  lemma DroppedPairStep(rest: seq<string>, decode: ObjectDecoder, data: Value)
    requires |rest| > 1 && IsExtraVarsFlag(rest[0]) && IsJsonPayload(rest[1])
    ensures Clean(rest) == Clean(rest[2..])
    ensures Fold(Payloads(Segments(rest)), decode, data) ==
            Fold(Payloads(Segments(rest[2..])), decode, Absorb(data, decode(rest[1])))
  {
    PairStep(rest);
    FoldCons(rest[1], Payloads(Segments(rest[2..])), decode, data);
  }

  /** The scan keeps a flag and a payload that does not start with `{`. */
  lemma KeptPairStep(cleaned: seq<string>, rest: seq<string>, decode: ObjectDecoder, data: Value)
    requires |rest| > 1 && IsExtraVarsFlag(rest[0]) && !IsJsonPayload(rest[1])
    ensures cleaned + Clean(rest) == (cleaned + [rest[0], rest[1]]) + Clean(rest[2..])
    ensures Fold(Payloads(Segments(rest)), decode, data) ==
            Fold(Payloads(Segments(rest[2..])), decode, data)
  {
    PairStep(rest);
    assert Payloads(Segments(rest)) == Payloads(Segments(rest[2..]));
  }

  /** The scan keeps a token that does not start a flag pair. */
  lemma KeptSingleStep(cleaned: seq<string>, rest: seq<string>, decode: ObjectDecoder, data: Value)
    requires |rest| > 0 && !(IsExtraVarsFlag(rest[0]) && |rest| > 1)
    ensures cleaned + Clean(rest) == (cleaned + [rest[0]]) + Clean(rest[1..])
    ensures Fold(Payloads(Segments(rest)), decode, data) ==
            Fold(Payloads(Segments(rest[1..])), decode, data)
  {
    SingleStep(rest);
  }

  // ---------------------------------------------------------------------------------------
  // The segmentation is determined by its rules

  lemma WellFormedTail(segs: seq<Segment>)
    requires |segs| > 0 && WellFormed(segs)
    ensures WellFormed(segs[1..])
  {
    forall i | 0 <= i < |segs| - 1
      ensures SegmentOk(segs[1..][i], i == |segs| - 2)
    {
      assert segs[1..][i] == segs[i + 1];
    }
  }

  /** The scan's steps cover the input exactly, in order, and each obeys the rules. */
  lemma {:induction false} SegmentsWellFormed(argv: seq<string>)
    ensures Flatten(Segments(argv)) == argv
    ensures WellFormed(Segments(argv))
    decreases |argv|
  {
    var segs := Segments(argv);
    if |argv| > 0 {
      var n := if IsExtraVarsFlag(argv[0]) && |argv| > 1 then 2 else 1;
      var rest := argv[n..];
      SegmentsWellFormed(rest);
      assert segs[1..] == Segments(rest);
      assert argv == Tokens(segs[0]) + rest;
      forall i | 0 <= i < |segs| ensures SegmentOk(segs[i], i == |segs| - 1) {
        if i > 0 {
          assert segs[i] == segs[1..][i - 1];
        } else if segs[0].Plain? && IsExtraVarsFlag(segs[0].arg) {
          assert |argv| == 1 && rest == [];
        }
      }
    }
  }

  /** Any sequence of steps that obeys the rules and covers `argv` is the scan of `argv`. */
  lemma {:induction false} SegmentationUnique(argv: seq<string>, segs: seq<Segment>)
    requires Flatten(segs) == argv && WellFormed(segs)
    ensures segs == Segments(argv)
  {
    if |segs| > 0 {
      var rest := Flatten(segs[1..]);
      assert argv == Tokens(segs[0]) + rest;
      WellFormedTail(segs);
      assert SegmentOk(segs[0], 0 == |segs| - 1);
      match segs[0]
      case Payload(f, j) =>
        assert argv[2..] == rest;
        SegmentationUnique(rest, segs[1..]);
        assert segs == [segs[0]] + segs[1..];
      case FlagValue(f, v) =>
        assert argv[2..] == rest;
        SegmentationUnique(rest, segs[1..]);
        assert segs == [segs[0]] + segs[1..];
      case Plain(a) =>
        assert argv[1..] == rest;
        SegmentationUnique(rest, segs[1..]);
        if IsExtraVarsFlag(a) {
          assert |segs| == 1;
          assert rest == [];
        }
        assert segs == [segs[0]] + segs[1..];
    }
  }

  /** So the cleaned vector is what any rule-abiding segmentation keeps. */
  lemma CleanBySegmentation(argv: seq<string>, segs: seq<Segment>)
    requires Flatten(segs) == argv && WellFormed(segs)
    ensures Clean(argv) == Kept(segs)
    ensures Payloads(Segments(argv)) == Payloads(segs)
  {
    SegmentationUnique(argv, segs);
  }

  // ---------------------------------------------------------------------------------------
  // Order and subsequence

  lemma {:induction false} SubsequenceLength(x: seq<string>, y: seq<string>)
    requires IsSubsequence(x, y)
    ensures |x| <= |y|
    decreases |y|
  {
    if |y| > 0 {
      if |x| > 0 && x[0] == y[0] && IsSubsequence(x[1..], y[1..]) {
        SubsequenceLength(x[1..], y[1..]);
      } else {
        SubsequenceLength(x, y[1..]);
      }
    }
  }

  lemma {:induction false} SubsequenceMembers(x: seq<string>, y: seq<string>, k: nat)
    requires IsSubsequence(x, y) && k < |x|
    ensures x[k] in y
    decreases |y|
  {
    if |y| > 0 {
      if |x| > 0 && x[0] == y[0] && IsSubsequence(x[1..], y[1..]) {
        if k > 0 {
          SubsequenceMembers(x[1..], y[1..], k - 1);
        }
      } else {
        SubsequenceMembers(x, y[1..], k);
      }
    }
  }

  /** The cleaned vector keeps tokens of the input in their original order, and no more. */
  lemma {:induction false} CleanIsSubsequence(argv: seq<string>)
    ensures IsSubsequence(Clean(argv), argv)
    ensures |Clean(argv)| <= |argv|
    ensures forall k :: 0 <= k < |Clean(argv)| ==> Clean(argv)[k] in argv
    decreases |argv|
  {
    var c := Clean(argv);
    if |argv| > 0 {
      var segs := Segments(argv);
      if IsExtraVarsFlag(argv[0]) && |argv| > 1 {
        var rest := argv[2..];
        CleanIsSubsequence(rest);
        assert segs[1..] == Segments(rest);
        assert argv[1..][1..] == rest;
        if IsJsonPayload(argv[1]) {
          assert c == Clean(rest);
          assert IsSubsequence(c, argv[1..][1..]);
          assert IsSubsequence(c, argv[1..]);
        } else {
          assert c == [argv[0], argv[1]] + Clean(rest);
          assert c[1..] == [argv[1]] + Clean(rest);
          assert c[1..][1..] == Clean(rest);
          assert IsSubsequence(c[1..], argv[1..]);
        }
      } else {
        var rest := argv[1..];
        CleanIsSubsequence(rest);
        assert segs[1..] == Segments(rest);
        assert c == [argv[0]] + Clean(rest);
        assert c[1..] == Clean(rest);
      }
    }
    SubsequenceLength(c, argv);
    forall k | 0 <= k < |c| ensures c[k] in argv {
      SubsequenceMembers(c, argv, k);
    }
  }

  /** Without an extra-vars flag nothing is dropped and nothing is decoded. */
  lemma {:induction false} CleanWithoutFlags(argv: seq<string>)
    requires forall i :: 0 <= i < |argv| ==> !IsExtraVarsFlag(argv[i])
    ensures Clean(argv) == argv
    ensures Payloads(Segments(argv)) == []
    decreases |argv|
  {
    if |argv| > 0 {
      var rest := argv[1..];
      assert forall i :: 0 <= i < |rest| ==> rest[i] == argv[i + 1];
      CleanWithoutFlags(rest);
      assert Segments(argv)[1..] == Segments(rest);
      assert argv == [argv[0]] + rest;
    }
  }

  // ---------------------------------------------------------------------------------------
  // The scan is compositional at step boundaries

  lemma {:induction false} KeptConcat(a: seq<Segment>, b: seq<Segment>)
    ensures Kept(a + b) == Kept(a) + Kept(b)
    ensures Payloads(a + b) == Payloads(a) + Payloads(b)
  {
    if |a| > 0 {
      assert (a + b)[0] == a[0] && (a + b)[1..] == a[1..] + b;
      KeptConcat(a[1..], b);
    } else {
      assert a + b == b;
    }
  }

  lemma ClosedTail(segs: seq<Segment>)
    requires |segs| > 0 && Closed(segs)
    ensures Closed(segs[1..])
  {
    forall i | 0 <= i < |segs| - 1
      ensures !(segs[1..][i].Plain? && IsExtraVarsFlag(segs[1..][i].arg))
    {
      assert segs[1..][i] == segs[i + 1];
    }
  }

  lemma {:induction false} ScanConcat(p: seq<string>, q: seq<string>)
    requires Closed(Segments(p))
    ensures Segments(p + q) == Segments(p) + Segments(q)
    decreases |p|
  {
    var s := Segments(p);
    if |p| == 0 {
      assert p + q == q;
    } else {
      var pq := p + q;
      assert pq[0] == p[0];
      if IsExtraVarsFlag(p[0]) && |p| > 1 {
        assert pq[1] == p[1] && pq[2..] == p[2..] + q;
        assert s[1..] == Segments(p[2..]);
        ClosedTail(s);
        ScanConcat(p[2..], q);
        assert Segments(pq) == [s[0]] + (Segments(p[2..]) + Segments(q));
      } else if !IsExtraVarsFlag(p[0]) {
        assert pq[1..] == p[1..] + q;
        assert s[1..] == Segments(p[1..]);
        ClosedTail(s);
        ScanConcat(p[1..], q);
        assert Segments(pq) == [s[0]] + (Segments(p[1..]) + Segments(q));
      }
    }
  }

  /** Cleaning and payload extraction split at a step boundary. */
  lemma CleanConcat(p: seq<string>, q: seq<string>)
    requires Closed(Segments(p))
    ensures Clean(p + q) == Clean(p) + Clean(q)
    ensures Payloads(Segments(p + q)) == Payloads(Segments(p)) + Payloads(Segments(q))
  {
    ScanConcat(p, q);
    KeptConcat(Segments(p), Segments(q));
  }

  /** A flag followed by a token that starts with `{` is dropped together with that token, and
      the token is the next payload handed to the decoder. */
  lemma DropJsonPair(p: seq<string>, flag: string, json: string, r: seq<string>)
    requires Closed(Segments(p))
    requires IsExtraVarsFlag(flag) && IsJsonPayload(json)
    ensures Clean(p + [flag, json] + r) == Clean(p) + Clean(r)
    ensures Payloads(Segments(p + [flag, json] + r)) ==
            Payloads(Segments(p)) + [json] + Payloads(Segments(r))
  {
    var tail := [flag, json] + r;
    assert p + [flag, json] + r == p + tail;
    assert tail[0] == flag && tail[1] == json && tail[2..] == r;
    CleanConcat(p, tail);
    PairStep(tail);
    assert Clean(tail) == Clean(r);
    assert Payloads(Segments(tail)) == [json] + Payloads(Segments(r));
  }

  /** A flag followed by any other token is kept, immediately followed by that token, which is
      not read as a flag itself and is not decoded. */
  lemma KeepOtherPair(p: seq<string>, flag: string, value: string, r: seq<string>)
    requires Closed(Segments(p))
    requires IsExtraVarsFlag(flag) && !IsJsonPayload(value)
    ensures Clean(p + [flag, value] + r) == Clean(p) + [flag, value] + Clean(r)
    ensures Payloads(Segments(p + [flag, value] + r)) ==
            Payloads(Segments(p)) + Payloads(Segments(r))
  {
    var tail := [flag, value] + r;
    assert p + [flag, value] + r == p + tail;
    assert tail[0] == flag && tail[1] == value && tail[2..] == r;
    CleanConcat(p, tail);
    PairStep(tail);
    assert Clean(tail) == [flag, value] + Clean(r);
    assert Payloads(Segments(tail)) == Payloads(Segments(r));
  }

  /** Any token that is not an extra-vars flag is kept in place. */
  lemma KeepPlain(p: seq<string>, arg: string, r: seq<string>)
    requires Closed(Segments(p))
    requires !IsExtraVarsFlag(arg)
    ensures Clean(p + [arg] + r) == Clean(p) + [arg] + Clean(r)
    ensures Payloads(Segments(p + [arg] + r)) == Payloads(Segments(p)) + Payloads(Segments(r))
  {
    var tail := [arg] + r;
    assert p + [arg] + r == p + tail;
    assert tail[0] == arg && tail[1..] == r;
    CleanConcat(p, tail);
    SingleStep(tail);
  }

  /** A flag with no token after it is kept as an ordinary argument. */
  lemma KeepTrailingToken(p: seq<string>, arg: string)
    requires Closed(Segments(p))
    ensures Clean(p + [arg]) == Clean(p) + [arg]
    ensures Payloads(Segments(p + [arg])) == Payloads(Segments(p))
  {
    CleanConcat(p, [arg]);
    SingleStep([arg]);
    assert [arg][1..] == [];
  }

  // ---------------------------------------------------------------------------------------
  // The captured value

  lemma {:induction false} FoldSnoc(payloads: seq<string>, x: string, decode: ObjectDecoder, data: Value)
    ensures Fold(payloads + [x], decode, data) == Absorb(Fold(payloads, decode, data), decode(x))
    decreases |payloads|
  {
    if |payloads| == 0 {
      assert payloads + [x] == [x];
    } else {
      assert (payloads + [x])[0] == payloads[0] && (payloads + [x])[1..] == payloads[1..] + [x];
      FoldSnoc(payloads[1..], x, decode, Absorb(data, decode(payloads[0])));
    }
  }

  /** The fold keeps the value of the last payload that decodes and holds the reserved key;
      payloads that fail to decode or lack the key change nothing; with no such payload the
      starting value stays. */
  lemma {:induction false} FoldIsLastCapture(payloads: seq<string>, decode: ObjectDecoder, data: Value)
    ensures Fold(payloads, decode, data) ==
            match LastCapture(payloads, decode) case Some(v) => v case None => data
    decreases |payloads|
  {
    if |payloads| > 0 {
      var init := payloads[..|payloads| - 1];
      var x := payloads[|payloads| - 1];
      assert payloads == init + [x];
      FoldSnoc(init, x, decode, data);
      FoldIsLastCapture(init, decode, data);
    }
  }

  lemma CapturedIsLast(argv: seq<string>, decode: ObjectDecoder)
    ensures Captured(argv, decode) ==
            match LastCapture(Payloads(Segments(argv)), decode)
            case Some(v) => v
            case None => Object(map[])
  {
    FoldIsLastCapture(Payloads(Segments(argv)), decode, Object(map[]));
  }

  // ---------------------------------------------------------------------------------------
  // Worked examples

  /** A JSON payload with the reserved key is dropped with its flag and its value captured. */
  lemma ExampleCapturedPayload(argv: seq<string>, decode: ObjectDecoder)
    requires argv == ["ansible-playbook", "--extra-vars", "{\"semaphore_vars\": {\"a\": 1}}"]
    requires decode(argv[2]) == Some(map["semaphore_vars" := Object(map["a" := Int(1)])])
    ensures Clean(argv) == ["ansible-playbook"]
    ensures Captured(argv, decode) == Object(map["a" := Int(1)])
  {
    assert Clean(argv) == ["ansible-playbook"] && Payloads(Segments(argv)) == [argv[2]] by {
      SingleStep(argv);
      PairStep(argv[1..]);
      assert argv[1..][2..] == [];
    }
    FoldCons(argv[2], [], decode, Object(map[]));
    assert [argv[2]] + [] == [argv[2]];
  }

  /** A file reference payload is kept with its flag and nothing is captured. */
  lemma ExampleFilePayload(argv: seq<string>, decode: ObjectDecoder)
    requires argv == ["play", "-e", "@vars.yml"]
    ensures Clean(argv) == argv
    ensures Captured(argv, decode) == Object(map[])
  {
    assert Clean(argv) == argv && Payloads(Segments(argv)) == [] by {
      SingleStep(argv);
      PairStep(argv[1..]);
      assert argv[1..][2..] == [];
    }
  }

  /** An inline key=value argument is an ordinary argument. */
  lemma ExampleInlinePair(argv: seq<string>, decode: ObjectDecoder)
    requires argv == ["play", "-ekey=value"]
    ensures Clean(argv) == argv
    ensures Captured(argv, decode) == Object(map[])
  {
    assert Clean(argv) == argv && Payloads(Segments(argv)) == [] by {
      SingleStep(argv);
      SingleStep(argv[1..]);
      assert argv[1..][1..] == [];
    }
  }

  /** A payload that fails to decode is still dropped, and nothing is captured. */
  lemma ExampleUndecodablePayload(argv: seq<string>, decode: ObjectDecoder)
    requires argv == ["play", "--extra-vars", "{not valid json"]
    requires decode(argv[2]) == None
    ensures Clean(argv) == ["play"]
    ensures Captured(argv, decode) == Object(map[])
  {
    assert Clean(argv) == ["play"] && Payloads(Segments(argv)) == [argv[2]] by {
      SingleStep(argv);
      PairStep(argv[1..]);
      assert argv[1..][2..] == [];
    }
    FoldCons(argv[2], [], decode, Object(map[]));
    assert [argv[2]] + [] == [argv[2]];
  }

  /** The token after a flag is never read as a flag: the second `-e` is the first one's
      payload, so the JSON-looking token after it is an ordinary argument. */
  lemma ExamplePayloadNotRescanned(argv: seq<string>, decode: ObjectDecoder)
    requires argv == ["play", "-e", "-e", "{x}"]
    ensures Clean(argv) == argv
    ensures Captured(argv, decode) == Object(map[])
  {
    assert Clean(argv) == argv && Payloads(Segments(argv)) == [] by {
      SingleStep(argv);
      PairStep(argv[1..]);
      assert argv[1..][2..] == [argv[3]];
      SingleStep([argv[3]]);
      assert [argv[3]][1..] == [];
    }
  }

  /** A later payload that decodes but lacks the reserved key leaves the captured value. */
  lemma ExampleLaterPayloadWithoutKey(argv: seq<string>, decode: ObjectDecoder)
    requires argv == ["play", "-e", "{A}", "-e", "{B}"]
    requires decode(argv[2]) == Some(map["semaphore_vars" := Str("x")])
    requires decode(argv[4]) == Some(map["other" := Null])
    ensures Clean(argv) == ["play"]
    ensures Captured(argv, decode) == Str("x")
  {
    assert Clean(argv) == ["play"] && Payloads(Segments(argv)) == [argv[2], argv[4]] by {
      SingleStep(argv);
      PairStep(argv[1..]);
      assert argv[1..][2..] == argv[3..];
      PairStep(argv[3..]);
      assert argv[3..][2..] == [];
    }
    FoldCons(argv[2], [argv[4]], decode, Object(map[]));
    FoldCons(argv[4], [], decode, Str("x"));
    assert [argv[2], argv[4]] == [argv[2]] + [argv[4]];
    assert [argv[4]] + [] == [argv[4]];
  }
}
