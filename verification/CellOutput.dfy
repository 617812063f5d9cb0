/**
 The event loop that runs one notebook cell. It reads messages until the kernel is idle,
 ignores messages that answer other requests, turns the rest into outputs and stops storing
 output once a budget of characters is used up.
 */
module CellOutput {
  import opened Wrappers
  import opened Sequences

  datatype Output =
    | Stream(name: string, text: string)
    | Data(kind: string, data: map<string, string>, metadata: string, count: Option<string>)
    | Failure(ename: string, evalue: string, traceback: seq<string>)

  // What a message asks for, from its type and content.
  datatype Message =
    | Idle
    | StreamText(name: Option<string>, text: Option<string>)
    | Result(data: map<string, string>, metadata: string, count: Option<string>)
    | Display(data: map<string, string>, metadata: string)
    | Error(ename: Option<string>, evalue: Option<string>, traceback: Option<seq<string>>)
    | Uninteresting

  // One turn of the loop before the deadline.
  datatype Tick = TimedOutRead | CancelSeen | Received(parent: Option<string>, message: Message)

  datatype Outcome =
    | Outputs(outputs: seq<Output>)
    | CellFailed(text: string)
    | Cancelled
    | ImageTooLarge
    | DeadlinePassed

  // The limits: characters of output, and bytes of a notebook. `size` is the length of an
  // output's JSON text.
  datatype Limits = Limits(maxOutputChars: nat, maxNotebookBytes: nat, size: Output -> nat)

  const MIME_TYPES := {"text/plain", "application/json", "image/png"}

  function Or(s: Option<string>, default: string): string {
    if s.Some? then s.value else default
  }

  // The last twenty lines.
  function Tail(lines: seq<string>): seq<string> {
    if |lines| <= 20 then lines else lines[|lines| - 20..]
  }

  function ToOutput(m: Message): Option<Output> {
    match m
    case Idle => None
    case Uninteresting => None
    case StreamText(name, text) => Some(Stream(Or(name, "stdout"), Or(text, "")))
    case Result(data, metadata, count) =>
      Some(Data("execute_result", map k | k in data && k in MIME_TYPES :: data[k], metadata, count))
    case Display(data, metadata) =>
      Some(Data("display_data", map k | k in data && k in MIME_TYPES :: data[k], metadata, None))
    case Error(ename, evalue, traceback) =>
      Some(Failure(Or(ename, "NotebookError"), Or(evalue, ""), Tail(if traceback.Some? then traceback.value else [])))
  }

  // Only an idle kernel and uninteresting messages give no output. An output carries its message's
  // content: of the data the three known kinds, unchanged, and of a traceback the last lines.
  lemma OutputsCarryTheirMessages(m: Message)
    ensures ToOutput(m).None? <==> m.Idle? || m.Uninteresting?
    ensures m.StreamText? && m.name.Some? && m.text.Some? ==> ToOutput(m) == Some(Stream(m.name.value, m.text.value))
    ensures m.StreamText? && m.name.None? ==> ToOutput(m).value.Stream? && ToOutput(m).value.name == "stdout"
    ensures m.StreamText? && m.text.None? ==> ToOutput(m).value.Stream? && ToOutput(m).value.text == ""
    ensures m.Result? || m.Display? ==>
              var o := ToOutput(m).value;
              && o.Data? && o.kind == (if m.Result? then "execute_result" else "display_data")
              && o.metadata == m.metadata && o.count == (if m.Result? then m.count else None)
              && forall k ::
                   && (k in o.data <==>
                         k in m.data && (k == "text/plain" || k == "application/json" || k == "image/png"))
                   && (k in o.data ==> o.data[k] == m.data[k])
    ensures m.Error? ==>
              var o, lines := ToOutput(m).value, if m.traceback.Some? then m.traceback.value else [];
              && o.Failure? && o.ename == (if m.ename.Some? then m.ename.value else "NotebookError")
              && o.evalue == (if m.evalue.Some? then m.evalue.value else "")
              && |o.traceback| == (if |lines| <= 20 then |lines| else 20)
              && o.traceback == lines[|lines| - |o.traceback|..]
  {
  }

  // ---- The error text ----

  predicate IsSpace(c: char) {
    c == ' ' || c == '\t' || c == '\n' || c == '\r'
  }

  function StripLeft(s: string): string {
    if s != "" && IsSpace(s[0]) then StripLeft(s[1..]) else s
  }

  function StripRight(s: string): string {
    if s != "" && IsSpace(s[|s| - 1]) then StripRight(s[..|s| - 1]) else s
  }

  function ErrorText(m: Message): string
    requires m.Error?
  {
    StripRight(StripLeft(Or(m.ename, "NotebookError") + ": " + Or(m.evalue, "")))
  }

  lemma {:induction false} StripLeftKeeps(s: string, c: char)
    requires c in s && !IsSpace(c)
    ensures c in StripLeft(s)
  {
    if IsSpace(s[0]) {
      StripLeftKeeps(s[1..], c);
    }
  }

  lemma {:induction false} StripRightKeeps(s: string, c: char)
    requires c in s && !IsSpace(c)
    ensures c in StripRight(s)
  {
    if IsSpace(s[|s| - 1]) {
      StripRightKeeps(s[..|s| - 1], c);
    }
  }

  // What stripping leaves is what lies between the outermost characters that are no spaces.
  ghost predicate IsStripped(s: string, i: nat, j: nat, r: string) {
    && i <= j <= |s| && r == s[i..j]
    && (forall c <- s[..i] :: c in " \t\n\r") && (forall c <- s[j..] :: c in " \t\n\r")
    && (r != "" ==> r[0] !in " \t\n\r" && r[|r| - 1] !in " \t\n\r")
  }

  lemma {:induction false} StrippedLeft(s: string) returns (i: nat)
    ensures i <= |s| && StripLeft(s) == s[i..] && forall c <- s[..i] :: c in " \t\n\r"
    ensures i < |s| ==> s[i] !in " \t\n\r"
  {
    i := 0;
    if s != "" && IsSpace(s[0]) {
      var below := StrippedLeft(s[1..]);
      assert s[..below + 1] == [s[0]] + s[1..][..below];
      i := below + 1;
    }
  }

  lemma {:induction false} StrippedRight(s: string) returns (j: nat)
    ensures j <= |s| && StripRight(s) == s[..j] && forall c <- s[j..] :: c in " \t\n\r"
    ensures j > 0 ==> s[j - 1] !in " \t\n\r"
  {
    j := |s|;
    if s != "" && IsSpace(s[|s| - 1]) {
      j := StrippedRight(s[..|s| - 1]);
      assert s[j..] == s[..|s| - 1][j..] + [s[|s| - 1]];
    }
  }

  lemma ErrorTextIsStripped(m: Message) returns (i: nat, j: nat)
    requires m.Error?
    ensures var name := if m.ename.Some? then m.ename.value else "NotebookError";
            var value := if m.evalue.Some? then m.evalue.value else "";
            IsStripped(name + ": " + value, i, j, ErrorText(m))
  {
    var s := Or(m.ename, "NotebookError") + ": " + Or(m.evalue, "");
    i := StrippedLeft(s);
    var length := StrippedRight(s[i..]);
    j := i + length;
    assert s[i..][..length] == s[i..j] && s[i..][length..] == s[j..];
  }

  // An error is never mistaken for none: its text holds a colon.
  lemma ErrorTextIsNotEmpty(m: Message)
    requires m.Error?
    ensures ErrorText(m) != ""
  {
    var s := Or(m.ename, "NotebookError") + ": " + Or(m.evalue, "");
    assert s[|Or(m.ename, "NotebookError")|] == ':';
    StripLeftKeeps(s, ':');
    StripRightKeeps(StripLeft(s), ':');
  }

  // ---- The budget ----

  predicate HasImage(o: Output) {
    o.Data? && "image/png" in o.data
  }

  // The image is not charged for: a short marker stands in for it.
  function Charged(o: Output): Output {
    if HasImage(o) then o.(data := o.data["image/png" := "[captured PNG]"]) else o
  }

  function Cost(l: Limits, o: Output): nat {
    l.size(Charged(o))
  }

  predicate Oversized(l: Limits, o: Output) {
    HasImage(o) && |o.data["image/png"]| > l.maxNotebookBytes * 2
  }

  function Clip(s: string, n: nat): string {
    (if |s| <= n then s else s[..n]) + "\n[output truncated]"
  }

  function Truncated(o: Output, remaining: nat): Output {
    match o
    case Stream(name, text) => Stream(name, Clip(text, remaining))
    case Data(kind, data, metadata, count) =>
      var plain := if "text/plain" in data then data["text/plain" := Clip(data["text/plain"], remaining)] else data;
      var json := if "application/json" in data then plain["application/json" := "{\"sacai_truncated\": true}"]
                  else plain;
      Data(kind, json, metadata, count)
    case Failure(ename, evalue, _) => Failure(ename, evalue, ["[error traceback truncated]"])
  }

  // The text is cut to so many characters, and the marker follows.
  ghost predicate IsCut(s: string, n: nat, r: string) {
    var kept := if |s| <= n then |s| else n;
    r == s[..kept] + "\n[output truncated]" && |r| == kept + 19
  }

  // Truncating cuts the text of a stream and the plain text of data, replaces JSON data and a
  // traceback by stubs, and leaves everything else.
  lemma TruncatedIsCut(o: Output, n: nat)
    ensures var t := Truncated(o, n);
            match o
            case Stream(name, text) => t.Stream? && t.name == name && IsCut(text, n, t.text)
            case Data(kind, data, metadata, count) =>
              && t == Data(kind, t.data, metadata, count) && t.data.Keys == data.Keys
              && forall k <- data ::
                   if k == "text/plain" then IsCut(data[k], n, t.data[k])
                   else if k == "application/json" then t.data[k] == "{\"sacai_truncated\": true}"
                   else t.data[k] == data[k]
            case Failure(ename, evalue, _) => t == Failure(ename, evalue, ["[error traceback truncated]"])
  {
  }

  // An image costs what its marker costs, whatever it holds.
  lemma ImagesAreNotCharged(l: Limits, o: Output, image: string)
    ensures !(o.Data? && "image/png" in o.data) ==> Cost(l, o) == l.size(o)
    ensures o.Data? && "image/png" in o.data ==>
              && Cost(l, o.(data := o.data["image/png" := image])) == Cost(l, o)
              && (o.data["image/png"] == "[captured PNG]" ==> Cost(l, o) == l.size(o))
  {
    if o.Data? && "image/png" in o.data {
      assert o.data["image/png" := image]["image/png" := "[captured PNG]"] == o.data["image/png" := "[captured PNG]"];
      if o.data["image/png"] == "[captured PNG]" {
        assert o.data["image/png" := "[captured PNG]"] == o.data;
      }
    }
  }

  function TotalCost(l: Limits, os: seq<Output>): nat {
    if os == [] then 0 else TotalCost(l, os[..|os| - 1]) + Cost(l, os[|os| - 1])
  }

  function Min(a: nat, b: nat): nat {
    if a <= b then a else b
  }

  // All outputs, fitted to a budget afterwards: those that fit whole, then the first that
  // does not, cut to what is left if anything is.
  function Fit(l: Limits, os: seq<Output>, budget: nat): seq<Output> {
    if os == [] || budget == 0 then []
    else if Cost(l, os[0]) > budget then [Truncated(os[0], budget)]
    else [os[0]] + Fit(l, os[1..], budget - Cost(l, os[0]))
  }

  lemma {:induction false} TotalCostFirst(l: Limits, o: Output, os: seq<Output>)
    ensures TotalCost(l, [o] + os) == Cost(l, o) + TotalCost(l, os)
    decreases |os|
  {
    if os == [] {
      assert [o] + os == [o];
      assert [o][..0] == [];
    } else {
      var n := |os| - 1;
      assert ([o] + os)[..n + 1] == [o] + os[..n];
      TotalCostFirst(l, o, os[..n]);
    }
  }

  lemma FitFirst(l: Limits, o: Output, os: seq<Output>, budget: nat)
    requires 0 < budget
    ensures Fit(l, [o] + os, budget) ==
            if Cost(l, o) > budget then [Truncated(o, budget)] else [o] + Fit(l, os, budget - Cost(l, o))
  {
    assert ([o] + os)[1..] == os;
  }

  // What the loop stores of an output with so much of the budget left.
  function Stored(l: Limits, o: Output, remaining: nat): seq<Output> {
    if remaining == 0 then [] else if Cost(l, o) > remaining then [Truncated(o, remaining)] else [o]
  }

  function Remaining(l: Limits, os: seq<Output>, budget: nat): nat {
    budget - Min(budget, TotalCost(l, os))
  }

  // Fitting one more output is what the loop does with it.
  lemma {:induction false} FitNext(l: Limits, os: seq<Output>, o: Output, budget: nat)
    ensures Fit(l, os + [o], budget) == Fit(l, os, budget) + Stored(l, o, Remaining(l, os, budget))
    decreases |os|
  {
    if budget == 0 {
    } else if os == [] {
      assert os + [o] == [o] + [];
      FitFirst(l, o, [], budget);
    } else {
      var first, rest, c := os[0], os[1..], Cost(l, os[0]);
      assert os == [first] + rest && os + [o] == [first] + (rest + [o]);
      TotalCostFirst(l, first, rest);
      if c <= budget {
        FitNext(l, rest, o, budget - c);
        FitNextBelow(l, first, rest, o, budget);
      } else {
        FitFirst(l, first, rest, budget);
        FitFirst(l, first, rest + [o], budget);
        assert Stored(l, o, Remaining(l, os, budget)) == [];
      }
    }
  }

  lemma FitNextBelow(l: Limits, first: Output, rest: seq<Output>, o: Output, budget: nat)
    requires 0 < budget && Cost(l, first) <= budget
    requires var left := budget - Cost(l, first);
             Fit(l, rest + [o], left) == Fit(l, rest, left) + Stored(l, o, Remaining(l, rest, left))
    ensures Fit(l, [first] + (rest + [o]), budget) ==
            Fit(l, [first] + rest, budget) + Stored(l, o, Remaining(l, [first] + rest, budget))
  {
    var left := budget - Cost(l, first);
    FitFirst(l, first, rest, budget);
    FitFirst(l, first, rest + [o], budget);
    RemainingFirst(l, first, rest, budget);
    ConcatIsAssociative([first], Fit(l, rest, left), Stored(l, o, Remaining(l, rest, left)));
  }

  lemma RemainingFirst(l: Limits, first: Output, rest: seq<Output>, budget: nat)
    requires Cost(l, first) <= budget
    ensures Remaining(l, [first] + rest, budget) == Remaining(l, rest, budget - Cost(l, first))
  {
    TotalCostFirst(l, first, rest);
  }

  // The first k outputs fit whole, and the next one, if any, does not: it is stored cut to what
  // is left, if anything is.
  ghost predicate FitsUpTo(l: Limits, os: seq<Output>, budget: nat, k: nat) {
    && k <= |os| && TotalCost(l, os[..k]) <= budget
    && (var left := budget - TotalCost(l, os[..k]);
        && (k < |os| ==> left == 0 || Cost(l, os[k]) > left)
        && Fit(l, os, budget) == os[..k] + if k < |os| && left > 0 then [Truncated(os[k], left)] else [])
  }

  // The fitted list is a verbatim prefix and at most one truncated output after it; the
  // truncated one is there exactly when the budget runs out inside an output.
  lemma {:induction false} FitIsPrefixAndOne(l: Limits, os: seq<Output>, budget: nat) returns (k: nat)
    ensures FitsUpTo(l, os, budget, k)
    decreases |os|
  {
    if os == [] || budget == 0 {
      NoneFits(l, os, budget);
      return 0;
    }
    assert os == [os[0]] + os[1..];
    if Cost(l, os[0]) > budget {
      FirstIsCut(l, os[0], os[1..], budget);
      return 0;
    }
    var below := FitIsPrefixAndOne(l, os[1..], budget - Cost(l, os[0]));
    FitsOneMore(l, os[0], os[1..], budget, below);
    return below + 1;
  }

  lemma NoneFits(l: Limits, os: seq<Output>, budget: nat)
    requires os == [] || budget == 0
    ensures FitsUpTo(l, os, budget, 0)
  {
    assert os[..0] == [];
  }

  lemma FirstIsCut(l: Limits, first: Output, rest: seq<Output>, budget: nat)
    requires 0 < budget < Cost(l, first)
    ensures FitsUpTo(l, [first] + rest, budget, 0)
  {
    assert ([first] + rest)[..0] == [];
    FitFirst(l, first, rest, budget);
  }

  lemma FitsOneMore(l: Limits, first: Output, rest: seq<Output>, budget: nat, k: nat)
    requires 0 < budget && Cost(l, first) <= budget && FitsUpTo(l, rest, budget - Cost(l, first), k)
    ensures FitsUpTo(l, [first] + rest, budget, k + 1)
  {
    var os := [first] + rest;
    assert os[..k + 1] == [first] + rest[..k] && (k < |rest| ==> os[k + 1] == rest[k]);
    TotalCostFirst(l, first, rest[..k]);
    FitFirst(l, first, rest, budget);
    var left := budget - Cost(l, first) - TotalCost(l, rest[..k]);
    ConcatIsAssociative([first], rest[..k], if k < |rest| && left > 0 then [Truncated(rest[k], left)] else []);
  }

  // No more text than this is left of an output.
  ghost predicate CutShort(o: Output, n: nat) {
    match o
    case Stream(_, text) => |text| <= n + 19
    case Data(_, data, _, _) => "text/plain" in data ==> |data["text/plain"]| <= n + 19
    case Failure(_, _, traceback) => traceback == ["[error traceback truncated]"]
  }

  // All outputs together cost no more than the budget, or all but the last one do and that is
  // cut to the rest.
  ghost predicate WithinBudget(l: Limits, outputs: seq<Output>, budget: nat) {
    TotalCost(l, outputs) <= budget ||
    (var n := |outputs| - 1;
     TotalCost(l, outputs[..n]) <= budget && CutShort(outputs[n], budget - TotalCost(l, outputs[..n])))
  }

  lemma FitIsWithinBudget(l: Limits, os: seq<Output>, budget: nat)
    ensures WithinBudget(l, Fit(l, os, budget), budget)
  {
    var k := FitIsPrefixAndOne(l, os, budget);
    var fitted, left := Fit(l, os, budget), budget - TotalCost(l, os[..k]);
    if k < |os| && left > 0 {
      assert fitted[..k] == os[..k] && fitted[k] == Truncated(os[k], left);
      TruncatedIsCut(os[k], left);
    } else {
      assert fitted == os[..k];
    }
  }

  // ---- What the cell produced ----

  predicate Own(t: Tick, id: string) {
    t.Received? && t.parent == Some(id)
  }

  // The loop without a budget: collect this request's outputs and its last error until idle.
  function Collect(l: Limits, ticks: seq<Tick>, id: string, os: seq<Output>, error: string): Outcome {
    if ticks == [] then DeadlinePassed
    else if ticks[0].CancelSeen? then Cancelled
    else if !Own(ticks[0], id) then Collect(l, ticks[1..], id, os, error)
    else
      var m := ticks[0].message;
      if m.Idle? then (if error != "" then CellFailed(error) else Outputs(Fit(l, os, l.maxOutputChars)))
      else
        var o := ToOutput(m);
        if o.None? then Collect(l, ticks[1..], id, os, error)
        else if Oversized(l, o.value) then ImageTooLarge
        else Collect(l, ticks[1..], id, os + [o.value], if m.Error? then ErrorText(m) else error)
  }

  lemma TotalCostLast(l: Limits, os: seq<Output>, o: Output)
    ensures TotalCost(l, os + [o]) == TotalCost(l, os) + Cost(l, o)
  {
    assert (os + [o])[..|os|] == os;
  }

  // The loop's state before the output at hand: what it returns and has charged so far.
  predicate Kept(l: Limits, own: seq<Output>, outputs: seq<Output>, used: nat) {
    outputs == Fit(l, own, l.maxOutputChars) && used == Min(l.maxOutputChars, TotalCost(l, own))
  }

  lemma KeptNext(l: Limits, own: seq<Output>, outputs: seq<Output>, used: nat, o: Output)
    requires Kept(l, own, outputs, used)
    ensures var left := l.maxOutputChars - used;
            Kept(l, own + [o], outputs + Stored(l, o, left), used + Min(Cost(l, o), left))
  {
    FitNext(l, own, o, l.maxOutputChars);
    TotalCostLast(l, own, o);
  }

  method ExecuteCode(l: Limits, ticks: seq<Tick>, id: string) returns (r: Outcome)
    ensures r == Collect(l, ticks, id, [], "")
    ensures r.Outputs? ==> WithinBudget(l, r.outputs, l.maxOutputChars)
  {
    var outputs: seq<Output> := [];
    var usedChars: nat := 0;
    var errorText := "";
    ghost var own: seq<Output> := [];
    for i := 0 to |ticks|
      invariant Collect(l, ticks, id, [], "") == Collect(l, ticks[i..], id, own, errorText)
      invariant Kept(l, own, outputs, usedChars)
    {
      assert ticks[i..][1..] == ticks[i + 1..];
      var tick := ticks[i];
      if tick.CancelSeen? {
        return Cancelled;
      }
      if tick.TimedOutRead? {
        continue;
      }
      if tick.parent != Some(id) {
        continue;
      }
      var message := tick.message;
      if message.Idle? {
        if errorText != "" {
          return CellFailed(errorText);
        }
        FitIsWithinBudget(l, own, l.maxOutputChars);
        return Outputs(outputs);
      }
      var output := ToOutput(message);
      if message.Error? {
        errorText := ErrorText(message);
      }
      if output.Some? {
        if Oversized(l, output.value) {
          return ImageTooLarge;
        }
        KeptNext(l, own, outputs, usedChars, output.value);
        own := own + [output.value];
        var encoded := Cost(l, output.value);
        var remaining := l.maxOutputChars - usedChars;
        if remaining <= 0 {
          continue;
        }
        if encoded > remaining {
          outputs := outputs + [Truncated(output.value, remaining)];
        } else {
          outputs := outputs + [output.value];
        }
        usedChars := usedChars + Min(encoded, remaining);
      }
    }
    assert ticks[|ticks|..] == [];
    return DeadlinePassed;
  }

  // ---- Independence, and errors ----

  function OwnTicks(ticks: seq<Tick>, id: string): seq<Tick> {
    if ticks == [] then []
    else if ticks[0].CancelSeen? || Own(ticks[0], id) then [ticks[0]] + OwnTicks(ticks[1..], id)
    else OwnTicks(ticks[1..], id)
  }

  // Messages of other requests, and reads that timed out, never change the outcome.
  lemma {:induction false} OthersDoNotMatter(l: Limits, ticks: seq<Tick>, id: string, os: seq<Output>, error: string)
    ensures Collect(l, OwnTicks(ticks, id), id, os, error) == Collect(l, ticks, id, os, error)
    decreases |ticks|
  {
    if ticks != [] {
      var rest := ticks[1..];
      if ticks[0].CancelSeen? || Own(ticks[0], id) {
        assert OwnTicks(ticks, id)[1..] == OwnTicks(rest, id);
      }
      if Own(ticks[0], id) && !ticks[0].message.Idle? {
        var m := ticks[0].message;
        var o := ToOutput(m);
        OthersDoNotMatter(l, rest, id, if o.Some? then os + [o.value] else os,
                          if m.Error? then ErrorText(m) else error);
      }
      OthersDoNotMatter(l, rest, id, os, error);
    }
  }

  // A read that timed out, or a message of another request, is as good as none, wherever it comes.
  lemma {:induction false} OneOtherDoesNotMatter(l: Limits, before: seq<Tick>, t: Tick, rest: seq<Tick>, id: string)
    requires t.TimedOutRead? || (t.Received? && t.parent != Some(id))
    ensures Collect(l, before + [t] + rest, id, [], "") == Collect(l, before + rest, id, [], "")
  {
    OwnTicksAppend(before + [t], rest, id);
    OwnTicksAppend(before, [t], id);
    OwnTicksAppend(before, rest, id);
    assert OwnTicks(before, id) + [] == OwnTicks(before, id) && [t][1..] == [];
    OthersDoNotMatter(l, before + [t] + rest, id, [], "");
    OthersDoNotMatter(l, before + rest, id, [], "");
  }

  lemma {:induction false} OwnTicksAppend(ticks: seq<Tick>, more: seq<Tick>, id: string)
    ensures OwnTicks(ticks + more, id) == OwnTicks(ticks, id) + OwnTicks(more, id)
  {
    if ticks == [] {
      assert ticks + more == more;
    } else {
      assert (ticks + more)[1..] == ticks[1..] + more;
      OwnTicksAppend(ticks[1..], more, id);
    }
  }

  // The data of a message holds an image that is too large.
  ghost predicate HasLargeImage(l: Limits, m: Message) {
    (m.Result? || m.Display?) && "image/png" in m.data && |m.data["image/png"]| > 2 * l.maxNotebookBytes
  }

  // Nothing among these ticks ends the loop: no sign of a cancellation, and among this request's
  // messages no idle kernel and no image that is too large.
  ghost predicate GoesOn(l: Limits, ticks: seq<Tick>, id: string) {
    forall t <- ticks ::
      !t.CancelSeen? && (t.Received? && t.parent == Some(id) ==> !t.message.Idle? && !HasLargeImage(l, t.message))
  }

  // This request's outputs, and its last error text, among the ticks.
  function OwnOutputs(ticks: seq<Tick>, id: string): seq<Output> {
    if ticks == [] then []
    else
      var rest := OwnOutputs(ticks[1..], id);
      if Own(ticks[0], id) && ToOutput(ticks[0].message).Some? then [ToOutput(ticks[0].message).value] + rest else rest
  }

  function LastError(ticks: seq<Tick>, id: string): string {
    if ticks == [] then ""
    else
      var n := |ticks| - 1;
      if Own(ticks[n], id) && ticks[n].message.Error? then ErrorText(ticks[n].message) else LastError(ticks[..n], id)
  }

  lemma {:induction false} CollectUpTo(l: Limits, ticks: seq<Tick>, rest: seq<Tick>, id: string, os: seq<Output>,
                                       error: string)
    requires GoesOn(l, ticks, id)
    ensures Collect(l, ticks + rest, id, os, error) ==
            Collect(l, rest, id, os + OwnOutputs(ticks, id),
                    if LastError(ticks, id) != "" then LastError(ticks, id) else error)
    decreases |ticks|
  {
    if ticks == [] {
      assert ticks + rest == rest && os + [] == os;
    } else {
      var t := ticks[0];
      assert (ticks + rest)[1..] == ticks[1..] + rest;
      assert GoesOn(l, ticks[1..], id);
      LastErrorFirst(t, ticks[1..], id);
      assert ticks == [t] + ticks[1..];
      if Own(t, id) && ToOutput(t.message).Some? {
        var o := ToOutput(t.message).value;
        var e := if t.message.Error? then ErrorText(t.message) else error;
        if t.message.Error? {
          ErrorTextIsNotEmpty(t.message);
        }
        CollectUpTo(l, ticks[1..], rest, id, os + [o], e);
        assert os + [o] + OwnOutputs(ticks[1..], id) == os + OwnOutputs(ticks, id);
      } else {
        CollectUpTo(l, ticks[1..], rest, id, os, error);
      }
    }
  }

  lemma {:induction false} LastErrorFirst(t: Tick, ticks: seq<Tick>, id: string)
    ensures LastError([t] + ticks, id) ==
            if LastError(ticks, id) != "" then LastError(ticks, id)
            else if Own(t, id) && t.message.Error? then ErrorText(t.message) else ""
    decreases |ticks|
  {
    if ticks == [] {
      assert [t] + ticks == [t];
    } else {
      var n := |ticks| - 1;
      assert ([t] + ticks)[..n + 1] == [t] + ticks[..n];
      LastErrorFirst(t, ticks[..n], id);
      if Own(ticks[n], id) && ticks[n].message.Error? {
        ErrorTextIsNotEmpty(ticks[n].message);
      }
    }
  }

  // When the kernel goes idle, the cell fails with its last error if it had any, however much
  // output came before it; otherwise the result is its own outputs, fitted to the budget.
  lemma OutcomeAtIdle(l: Limits, ticks: seq<Tick>, rest: seq<Tick>, id: string)
    requires GoesOn(l, ticks, id)
    ensures Collect(l, ticks + [Received(Some(id), Idle)] + rest, id, [], "") ==
            if exists t <- ticks :: Own(t, id) && t.message.Error? then CellFailed(LastError(ticks, id))
            else Outputs(Fit(l, OwnOutputs(ticks, id), l.maxOutputChars))
  {
    var idle := Received(Some(id), Idle);
    assert ticks + [idle] + rest == ticks + ([idle] + rest);
    CollectUpTo(l, ticks, [idle] + rest, id, [], "");
    assert [] + OwnOutputs(ticks, id) == OwnOutputs(ticks, id);
    ErrorIsRemembered(ticks, id);
  }

  lemma {:induction false} ErrorIsRemembered(ticks: seq<Tick>, id: string)
    ensures LastError(ticks, id) != "" <==> exists t <- ticks :: Own(t, id) && t.message.Error?
    decreases |ticks|
  {
    if ticks != [] {
      var n := |ticks| - 1;
      ErrorIsRemembered(ticks[..n], id);
      assert ticks == ticks[..n] + [ticks[n]];
      if Own(ticks[n], id) && ticks[n].message.Error? {
        ErrorTextIsNotEmpty(ticks[n].message);
      }
    }
  }

  // Each of this request's messages adds its output, in order, and nothing else does.
  lemma {:induction false} OwnOutputsAreInOrder(ticks: seq<Tick>, more: seq<Tick>, t: Tick, id: string)
    ensures OwnOutputs(ticks + more, id) == OwnOutputs(ticks, id) + OwnOutputs(more, id)
    ensures OwnOutputs([t], id) ==
            if t.Received? && t.parent == Some(id) && ToOutput(t.message).Some? then [ToOutput(t.message).value]
            else []
  {
    if ticks == [] {
      assert ticks + more == more;
    } else {
      assert (ticks + more)[1..] == ticks[1..] + more;
      OwnOutputsAreInOrder(ticks[1..], more, t, id);
    }
  }

  // The other ends: a cancellation, an image that is too large, or the deadline, whatever came
  // before.
  lemma OtherOutcomes(l: Limits, ticks: seq<Tick>, m: Message, rest: seq<Tick>, id: string)
    requires GoesOn(l, ticks, id)
    ensures Collect(l, ticks + ([CancelSeen] + rest), id, [], "") == Cancelled
    ensures HasLargeImage(l, m) ==>
              Collect(l, ticks + ([Received(Some(id), m)] + rest), id, [], "") == ImageTooLarge
    ensures Collect(l, ticks, id, [], "") == DeadlinePassed
  {
    CollectUpTo(l, ticks, [CancelSeen] + rest, id, [], "");
    CollectUpTo(l, ticks, [Received(Some(id), m)] + rest, id, [], "");
    CollectUpTo(l, ticks, [], id, [], "");
    assert ticks + [] == ticks;
    OutputsCarryTheirMessages(m);
  }
}
