/** The common request endpoint: the request body is a list of JSON objects separated by `&`; each names a
    configured process by its key, and the first one whose script expands to something is run. */
module Dispatch {
  import opened Wrappers
  import opened Strings
  import opened Template

  /** One entry of the configured process list. A missing field reads as the empty string. */
  type Process = map<string, string>

  type Data = map<string, string>

  function Field(p: Process, name: string): string {
    if name in p then p[name] else ""
  }

  /** One execution of a script by the shell, with or without capturing its output. */
  datatype Execution = Execution(script: string, capture: bool)

  datatype Reply =
    | NoProcesses
    | UnreadableBody
    | MalformedSegment
    | MissingKey
    | ScriptFailed(error: string)
    | ScriptDone(details: string)
    | NoScriptFound
    | ScriptNotRun(script: string)

  // ---------------------------------------------------------------------------------------------
  // What one segment asks for, regarded on its own

  datatype Verdict = Malformed | Keyless | Nothing | Run(execution: Execution)

  /** The position of the first process with the given key; past the end if there is none. */
  function FirstMatch(processes: seq<Process>, key: string): (i: nat)
    ensures i <= |processes|
    ensures i < |processes| ==> Field(processes[i], "key") == key
    ensures forall j :: 0 <= j < i ==> Field(processes[j], "key") != key
  {
    if processes == [] || Field(processes[0], "key") == key then 0 else 1 + FirstMatch(processes[1..], key)
  }

  lemma FirstMatchIs(processes: seq<Process>, key: string, i: nat)
    requires i <= |processes| && (i < |processes| ==> Field(processes[i], "key") == key)
    requires forall j :: 0 <= j < i ==> Field(processes[j], "key") != key
    ensures FirstMatch(processes, key) == i
  {
    var k := FirstMatch(processes, key);
    assert !(k < i) && !(i < k);
  }

  function ScriptOf(p: Process, dat: Data): string {
    ExpandAll(Field(p, "script"), Split(Field(p, "param"), ','), dat)
  }

  /** What a process makes of the data of a segment. */
  function Asks(p: Process, dat: Data): Verdict {
    if ScriptOf(p, dat) == "" then Nothing else Run(Execution(ScriptOf(p, dat), Field(p, "outputFlag") == "1"))
  }

  function Judge(processes: seq<Process>, dat: Option<Data>): Verdict {
    match dat
    case None => Malformed
    case Some(d) =>
      if "key" !in d then Keyless
      else
        var i := FirstMatch(processes, d["key"]);
        if i < |processes| then Asks(processes[i], d) else Nothing
  }

  /** Segment `i` is the first one that asks for anything. */
  predicate FirstDecisive(processes: seq<Process>, parse: string -> Option<Data>, segments: seq<string>, i: nat) {
    && i < |segments| && Judge(processes, parse(segments[i])) != Nothing
    && forall j :: 0 <= j < i ==> Judge(processes, parse(segments[j])) == Nothing
  }

  /** The answer and the executions that a decisive verdict leads to. */
  predicate Settles(v: Verdict, shell: Execution -> Result<string, string>, reply: Reply, ran: seq<Execution>) {
    match v
    case Malformed => reply == MalformedSegment && ran == []
    case Keyless => reply == MissingKey && ran == []
    case Nothing => false
    case Run(x) =>
      && ran == [x]
      && match shell(x)
         case Err(e) => reply == ScriptFailed(e)
         case Ok(out) => reply == ScriptDone(if x.capture then out else "")
  }

  /** What a request must lead to: the first segment that asks for anything is answered, and nothing else is
      run; without one no script is found. */
  ghost predicate Answers(processes: seq<Process>, parse: string -> Option<Data>, segments: seq<string>,
                          shell: Execution -> Result<string, string>, reply: Reply, ran: seq<Execution>) {
    && (forall i: nat :: FirstDecisive(processes, parse, segments, i)
          ==> Settles(Judge(processes, parse(segments[i])), shell, reply, ran))
    && (NothingBefore(processes, parse, segments, |segments|) ==> reply == NoScriptFound && ran == [])
  }

  predicate NothingBefore(processes: seq<Process>, parse: string -> Option<Data>, segments: seq<string>, n: nat)
    requires n <= |segments|
  {
    forall j :: 0 <= j < n ==> Judge(processes, parse(segments[j])) == Nothing
  }

  lemma DecisiveAnswers(processes: seq<Process>, parse: string -> Option<Data>, segments: seq<string>,
                        shell: Execution -> Result<string, string>, reply: Reply, ran: seq<Execution>, n: nat)
    requires n < |segments| && NothingBefore(processes, parse, segments, n)
    requires Settles(Judge(processes, parse(segments[n])), shell, reply, ran)
    ensures Answers(processes, parse, segments, shell, reply, ran)
  {
    forall i: nat | FirstDecisive(processes, parse, segments, i)
      ensures i == n
    {
      assert !(i < n) && !(n < i);
    }
  }

  // ---------------------------------------------------------------------------------------------
  // The same in terms of the configuration and the data alone

  function Text(p: Process, name: string): string {
    match Lookup(p, name)
    case None => ""
    case Some(v) => v
  }

  function Lookup(p: Process, name: string): Option<string> {
    if name in p then Some(p[name]) else None
  }

  /** Process `i` is the first in the configuration with this key. */
  predicate FirstKeyed(processes: seq<Process>, key: string, i: nat) {
    i < |processes| && Text(processes[i], "key") == key && forall j :: 0 <= j < i ==> Text(processes[j], "key") != key
  }

  /** The script of a process with the data filled in. */
  function Expanded(p: Process, dat: Data): string {
    ExpandAll(Text(p, "script"), Split(Text(p, "param"), ','), dat)
  }

  /** The segment parses, has a key, and leads to no script: no process has its key, or the script of the first that
      has it is empty. */
  predicate Silent(processes: seq<Process>, dat: Option<Data>) {
    && dat.Some? && "key" in dat.value
    && forall i :: 0 <= i < |processes| && FirstKeyed(processes, dat.value["key"], i) ==> Expanded(processes[i], dat.value) == ""
  }

  lemma FirstMatchKeyed(processes: seq<Process>, key: string)
    ensures var k := FirstMatch(processes, key);
            (k < |processes| <==> exists i: nat :: FirstKeyed(processes, key, i))
            && forall i: nat :: FirstKeyed(processes, key, i) ==> i == k
  {
    var k := FirstMatch(processes, key);
    if k < |processes| {
      assert FirstKeyed(processes, key, k);
    }
    forall i: nat | FirstKeyed(processes, key, i)
      ensures i == k
    {
      assert !(i < k) && !(k < i);
    }
  }

  /** What the verdict on a segment says. */
  lemma JudgeMeans(processes: seq<Process>, dat: Option<Data>)
    ensures Judge(processes, dat) == Malformed <==> dat == None
    ensures Judge(processes, dat) == Keyless <==> dat.Some? && "key" !in dat.value
    ensures Judge(processes, dat) == Nothing <==> Silent(processes, dat)
    ensures Judge(processes, dat).Run? ==>
              dat.Some? && "key" in dat.value
              && exists i: nat :: FirstKeyed(processes, dat.value["key"], i) && Expanded(processes[i], dat.value) != ""
                   && Judge(processes, dat).execution
                      == Execution(Expanded(processes[i], dat.value), Text(processes[i], "outputFlag") == "1")
  {
    if dat.Some? && "key" in dat.value {
      FirstMatchKeyed(processes, dat.value["key"]);
      var k := FirstMatch(processes, dat.value["key"]);
      if k < |processes| {
        assert FirstKeyed(processes, dat.value["key"], k);
        assert ScriptOf(processes[k], dat.value) == Expanded(processes[k], dat.value);
      }
    }
  }

  /** What becomes of a request whose segments before `n` lead to no script. */
  ghost predicate Decides(processes: seq<Process>, dat: Option<Data>, shell: Execution -> Result<string, string>,
                          reply: Reply, ran: seq<Execution>) {
    match dat
    case None => reply == MalformedSegment && ran == []
    case Some(d) =>
      if "key" !in d then reply == MissingKey && ran == []
      else forall i: nat :: FirstKeyed(processes, d["key"], i) && Expanded(processes[i], d) != "" ==>
        Runs(Expanded(processes[i], d), Text(processes[i], "outputFlag") == "1", shell, reply, ran)
  }

  /** The script has been run, capturing its output or not, and answered. */
  ghost predicate Runs(script: string, capture: bool, shell: Execution -> Result<string, string>,
                       reply: Reply, ran: seq<Execution>) {
    && ran == [Execution(script, capture)]
    && (shell(Execution(script, capture)).Err? ==> reply == ScriptFailed(shell(Execution(script, capture)).error))
    && (shell(Execution(script, capture)).Ok? ==>
          reply == ScriptDone(if capture then shell(Execution(script, capture)).value else ""))
  }

  /** All segments before `n` lead to no script. */
  ghost predicate SilentBefore(processes: seq<Process>, parse: string -> Option<Data>, segments: seq<string>, n: nat)
    requires n <= |segments|
  {
    forall j :: 0 <= j < n ==> Silent(processes, parse(segments[j]))
  }

  lemma SilentIsNothing(processes: seq<Process>, parse: string -> Option<Data>, segments: seq<string>, n: nat)
    requires n <= |segments|
    ensures SilentBefore(processes, parse, segments, n) <==> NothingBefore(processes, parse, segments, n)
  {
    forall j | 0 <= j < n
      ensures Silent(processes, parse(segments[j])) <==> Judge(processes, parse(segments[j])) == Nothing
    {
      JudgeMeans(processes, parse(segments[j]));
    }
  }

  lemma AnswersDecides(processes: seq<Process>, parse: string -> Option<Data>, segments: seq<string>,
                       shell: Execution -> Result<string, string>, reply: Reply, ran: seq<Execution>, n: nat)
    requires Answers(processes, parse, segments, shell, reply, ran)
    requires n < |segments| && SilentBefore(processes, parse, segments, n)
    ensures Decides(processes, parse(segments[n]), shell, reply, ran)
  {
    SilentIsNothing(processes, parse, segments, n);
    var dat := parse(segments[n]);
    JudgeMeans(processes, dat);
    if dat.Some? && "key" in dat.value {
      FirstMatchKeyed(processes, dat.value["key"]);
    }
    if Judge(processes, dat) != Nothing {
      assert FirstDecisive(processes, parse, segments, n);
    }
  }

  /** Whatever has been run comes from some segment after silent ones. */
  lemma RanHasSegment(processes: seq<Process>, parse: string -> Option<Data>, segments: seq<string>,
                      shell: Execution -> Result<string, string>, reply: Reply, ran: seq<Execution>)
    requires Answers(processes, parse, segments, shell, reply, ran) && ran != []
    ensures exists n: nat :: n < |segments| && SilentBefore(processes, parse, segments, n)
              && Originates(processes, parse(segments[n]), ran)
  {
    if NothingBefore(processes, parse, segments, |segments|) {
      assert false;
    }
    var m := FirstSomething(processes, parse, segments);
    assert FirstDecisive(processes, parse, segments, m);
    SilentIsNothing(processes, parse, segments, m);
    JudgeMeans(processes, parse(segments[m]));
    assert Originates(processes, parse(segments[m]), ran);
  }

  /** The only script run is that of the first process with the key of this segment. */
  ghost predicate Originates(processes: seq<Process>, dat: Option<Data>, ran: seq<Execution>) {
    && dat.Some? && "key" in dat.value
    && exists i: nat :: FirstKeyed(processes, dat.value["key"], i) && Expanded(processes[i], dat.value) != ""
         && ran == [Execution(Expanded(processes[i], dat.value), Text(processes[i], "outputFlag") == "1")]
  }

  lemma FirstSomething(processes: seq<Process>, parse: string -> Option<Data>, segments: seq<string>) returns (m: nat)
    requires !NothingBefore(processes, parse, segments, |segments|)
    ensures FirstDecisive(processes, parse, segments, m)
  {
    var some :| 0 <= some < |segments| && Judge(processes, parse(segments[some])) != Nothing;
    m := 0;
    while Judge(processes, parse(segments[m])) == Nothing
      invariant m <= some && NothingBefore(processes, parse, segments, m)
      decreases some - m
    {
      m := m + 1;
    }
  }

  // ---------------------------------------------------------------------------------------------
  // The handler

  /** The variables that live across the segments of one request. */
  datatype Carried = Carried(findFlag: bool, script: string, param: string, outputFlag: string)

  /** The inner loop: looks for the first process with the key of the segment, and overwrites the carried
      variables when there is one. */
  method FindProcess(processes: seq<Process>, dat: Data, carried: Carried) returns (keyless: bool, next: Carried)
    ensures keyless <==> processes != [] && "key" !in dat
    ensures "key" in dat ==>
              var i := FirstMatch(processes, dat["key"]);
              next == if i < |processes|
                      then Carried(true, Field(processes[i], "script"), Field(processes[i], "param"), Field(processes[i], "outputFlag"))
                      else carried
  {
    next := carried;
    for i := 0 to |processes|
      invariant next == carried
      invariant i > 0 ==> "key" in dat
      invariant "key" in dat ==> forall j :: 0 <= j < i ==> Field(processes[j], "key") != dat["key"]
    {
      if "key" in dat {
        if Field(processes[i], "key") == dat["key"] {
          next := Carried(true, Field(processes[i], "script"), Field(processes[i], "param"), Field(processes[i], "outputFlag"));
          FirstMatchIs(processes, dat["key"], i);
          return false, next;
        }
      } else {
        return true, next;
      }
    }
    if "key" in dat {
      FirstMatchIs(processes, dat["key"], |processes|);
    }
    keyless := false;
  }

  /** Runs the script and turns its outcome into the answer. */
  method RunScript(x: Execution, shell: Execution -> Result<string, string>) returns (reply: Reply, ran: seq<Execution>)
    ensures Settles(Run(x), shell, reply, ran)
  {
    ran := [x];
    match shell(x) {
      case Err(e) => reply := ScriptFailed(e);
      case Ok(out) => reply := ScriptDone(if x.capture then out else "");
    }
  }

  /** The loop over the segments. The carried variables are never reset between them. */
  method ServeSegments(processes: seq<Process>, segments: seq<string>,
                       parse: string -> Option<Data>, shell: Execution -> Result<string, string>)
    returns (reply: Reply, ran: seq<Execution>)
    requires processes != []
    ensures |ran| <= 1 && !reply.ScriptNotRun?
    ensures Answers(processes, parse, segments, shell, reply, ran)
  {
    ran := [];
    var v := Carried(false, "", "", "");
    for n := 0 to |segments|
      invariant v.findFlag ==> v.script == ""
      invariant v.script == "" && ran == []
      invariant NothingBefore(processes, parse, segments, n)
    {
      var parsed := parse(segments[n]);
      if parsed.None? {
        DecisiveAnswers(processes, parse, segments, shell, MalformedSegment, [], n);
        return MalformedSegment, ran;
      }
      var dat := parsed.value;
      var keyless;
      keyless, v := FindProcess(processes, dat, v);
      if keyless {
        DecisiveAnswers(processes, parse, segments, shell, MissingKey, [], n);
        return MissingKey, ran;
      }
      ExpandEmpty(Split(v.param, ','), dat);
      if v.findFlag {
        var script := Expand(v.script, Split(v.param, ','), dat);
        v := v.(script := script);
        if |script| != 0 {
          reply, ran := RunScript(Execution(script, v.outputFlag == "1"), shell);
          DecisiveAnswers(processes, parse, segments, shell, reply, ran, n);
          return;
        }
      }
    }
    reply := if !v.findFlag || |v.script| == 0 then NoScriptFound else ScriptNotRun(v.script);
  }

  /** Serves one request; `body` is None when it cannot be read. The first segment that does not parse, has no key, or
      leads to a script decides; without one no script is found. */
  method CommonRequest(processes: seq<Process>, body: Option<string>,
                       parse: string -> Option<Data>, shell: Execution -> Result<string, string>)
    returns (reply: Reply, ran: seq<Execution>)
    ensures |ran| <= 1
    ensures !reply.ScriptNotRun?
    ensures processes == [] ==> reply == NoProcesses && ran == []
    ensures processes != [] && body.None? ==> reply == UnreadableBody && ran == []
    ensures processes != [] && body.Some? ==>
              var segments := Split(body.value, '&');
              && Answers(processes, parse, segments, shell, reply, ran)
              && (forall n: nat :: n < |segments| && SilentBefore(processes, parse, segments, n)
                    ==> Decides(processes, parse(segments[n]), shell, reply, ran))
              && (SilentBefore(processes, parse, segments, |segments|) ==> reply == NoScriptFound && ran == [])
              && (ran != [] ==> exists n: nat :: n < |segments| && SilentBefore(processes, parse, segments, n)
                                  && Originates(processes, parse(segments[n]), ran))
  {
    if |processes| < 1 {
      return NoProcesses, [];
    }
    if body.None? {
      return UnreadableBody, [];
    }
    var segments := Split(body.value, '&');
    reply, ran := ServeSegments(processes, segments, parse, shell);
    forall n: nat | n < |segments| && SilentBefore(processes, parse, segments, n)
      ensures Decides(processes, parse(segments[n]), shell, reply, ran)
    {
      AnswersDecides(processes, parse, segments, shell, reply, ran, n);
    }
    SilentIsNothing(processes, parse, segments, |segments|);
    if ran != [] {
      RanHasSegment(processes, parse, segments, shell, reply, ran);
    }
  }

  // ---------------------------------------------------------------------------------------------
  // The script that runs

  /** When the matching process has a well-formed template and no value can open a listed placeholder, what runs is
      that template with all its listed holes filled at once. */
  lemma RunsTheFilledTemplate(p: Process, parts: seq<Part>, dat: Data)
    requires Field(p, "script") == Render(parts) && WellFormed(parts)
    requires Named(Split(Field(p, "param"), ','), dat) && Harmless(Split(Field(p, "param"), ','), dat)
    ensures ScriptOf(p, dat) == Render(Fill(parts, Names(Split(Field(p, "param"), ',')), dat))
  {
    ExpandIsFill(parts, Split(Field(p, "param"), ','), dat);
  }
}
