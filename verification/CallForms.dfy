/** The JSON form of an action call, and that a budget error points at the offending value in it. */
module CallForms {
  import opened BudgetPointers
  import opened Digits
  import opened Options
  import opened Pointers
  import opened Texts
  import opened ValueBudgets

  /** How scalars other than text are written; nothing here depends on it. */
  type Writer = DataValue -> string

  function TagOf(v: DataValue): string {
    match v
    case Bool(_) => "bool"
    case Integer(_) => "integer"
    case Unsigned(_) => "unsigned"
    case Fixed(_) => "fixed"
    case Text(_) => "text"
    case ObjectRef(_) => "object_ref"
    case List(_) => "list"
    case Map(_) => "map"
  }

  /** A value is an object with its tag and its payload. */
  ghost function ValueForm(v: DataValue, write: Writer): Json
    decreases v, 1
  {
    Object(map["type" := Scalar(TagOf(v)), "value" := Payload(v, write)])
  }

  ghost function Payload(v: DataValue, write: Writer): Json
    decreases v, 0
  {
    match v
    case Text(text) => Scalar(text)
    case List(items) => Array(seq(|items|, i requires 0 <= i < |items| => ValueForm(items[i], write)))
    case Map(entries) => Object(MembersForm(entries, write))
    case _ => Scalar(write(v))
  }

  ghost function MembersForm(entries: seq<Entry>, write: Writer): map<string, Json>
    decreases entries, 0
  {
    if entries == [] then map[]
    else MembersForm(entries[1..], write)[entries[0].key := ValueForm(entries[0].value, write)]
  }

  ghost function CallForm(actionId: string, args: seq<Entry>, write: Writer): Json {
    Object(map["action_id" := Scalar(actionId), "args" := Object(MembersForm(args, write))])
  }

  ghost predicate DistinctKeys(entries: seq<Entry>) {
    forall i, j :: 0 <= i < j < |entries| ==> entries[i].key != entries[j].key
  }

  /** Maps have each key once and lists are no longer than a machine index reaches. */
  ghost predicate WellFormed(v: DataValue) {
    && (v.List? ==> |v.items| <= USIZE_MAX && forall i :: 0 <= i < |v.items| ==> WellFormed(v.items[i]))
    && (v.Map? ==>
          DistinctKeys(v.entries) && forall i :: 0 <= i < |v.entries| ==> WellFormed(v.entries[i].value))
  }

  ghost predicate CallWellFormed(args: seq<Entry>) {
    DistinctKeys(args) && forall i :: 0 <= i < |args| ==> WellFormed(args[i].value)
  }

  lemma {:induction false} MemberFound(entries: seq<Entry>, k: nat, write: Writer)
    requires DistinctKeys(entries) && k < |entries|
    ensures entries[k].key in MembersForm(entries, write)
    ensures MembersForm(entries, write)[entries[k].key] == ValueForm(entries[k].value, write)
    decreases |entries|
  {
    if k > 0 {
      assert entries[1..][k - 1] == entries[k];
      assert entries[0].key != entries[k].key;
      MemberFound(entries[1..], k - 1, write);
    }
  }

  /** A numeral is read back as an array index. */
  lemma IndexOfNumeral(i: nat)
    requires i <= USIZE_MAX
    ensures ParseIndex(Numeral(i)) == Some(i)
  {
    NumeralDenotes(i);
    assert Numeral(i)[0] != '+' by { assert IsDigit(Numeral(i)[0]); }
  }

  lemma DigitsNeedNoEscape(s: string)
    requires AllDigits(s)
    ensures Escape(s) == s
  {
    assert forall i :: 0 <= i < |s| ==> IsDigit(s[i]);
    NothingToEscape(s);
  }

  lemma PlainKey(key: string)
    requires forall i :: 0 <= i < |key| ==> key[i] != '~' && key[i] != '/'
    ensures Keys("/" + key) == [key]
  {
    NothingToEscape(key);
    KeysOfOne(key);
    hide Escape, Keys;
  }

  lemma KeysOfTwo(key: string, token: string)
    requires forall i :: 0 <= i < |key| ==> key[i] != '~' && key[i] != '/'
    ensures Keys("/" + key + "/" + Escape(token)) == [key, token]
  {
    PlainKey(key);
    KeysOfOne(token);
    hide Escape, Keys;
    assert "/" + key + "/" + Escape(token) == ("/" + key) + ("/" + Escape(token));
    KeysConcat("/" + key, "/" + Escape(token));
  }

  lemma ShortKeys(token: string)
    ensures Keys("/value/" + Escape(token)) == ["value", token]
    ensures Keys("/args/" + Escape(token)) == ["args", token]
    ensures Keys("/value") == ["value"]
  {
    hide Escape, Keys;
    PlainKey("value");
    KeysOfTwo("value", token);
    KeysOfTwo("args", token);
    assert "/" + "value" == "/value";
    assert "/" + "value" + "/" + Escape(token) == "/value/" + Escape(token);
    assert "/" + "args" + "/" + Escape(token) == "/args/" + Escape(token);
  }

  lemma FollowTwo(v: Json, a: string, b: string)
    ensures Follow(v, [a, b]) == match Child(v, a) case Some(u) => Child(u, b) case None => None
    ensures Follow(v, [a]) == Child(v, a)
  {
    assert [a, b][1..] == [b] && [b][1..] == [];
    if Child(v, a).Some? {
      var u := Child(v, a).value;
      assert Follow(u, [b]) == match Child(u, b) case Some(t) => Follow(t, []) case None => None;
    }
  }

  lemma KeysOfIndex(k: nat)
    ensures Keys("/value/" + Numeral(k)) == ["value", Numeral(k)]
  {
    hide Escape, Keys, Numeral;
    ShortKeys(Numeral(k));
    DigitsNeedNoEscape(Numeral(k));
  }

  lemma PayloadLeads(v: DataValue, b: string, write: Writer)
    ensures Follow(ValueForm(v, write), ["value", b]) == Child(Payload(v, write), b)
    ensures Follow(ValueForm(v, write), ["value"]) == Some(Payload(v, write))
  {
    hide Payload;
    FollowTwo(ValueForm(v, write), "value", b);
    assert Child(ValueForm(v, write), "value") == Some(Payload(v, write));
    hide Follow, Child;
  }

  lemma IndexLeads(items: seq<DataValue>, k: nat, write: Writer)
    requires k < |items| <= USIZE_MAX
    ensures Follow(ValueForm(List(items), write), Keys("/value/" + Numeral(k))) == Some(ValueForm(items[k], write))
  {
    KeysOfIndex(k);
    IndexOfNumeral(k);
    hide Escape, Keys, Numeral, ParseIndex, Follow, ValueForm;
    PayloadLeads(List(items), Numeral(k), write);
  }

  lemma KeyLeads(entries: seq<Entry>, k: nat, write: Writer)
    requires k < |entries| && DistinctKeys(entries)
    ensures Follow(ValueForm(Map(entries), write), Keys("/value/" + Escape(entries[k].key))) ==
            Some(ValueForm(entries[k].value, write))
  {
    assert Keys("/value/" + Escape(entries[k].key)) == ["value", entries[k].key] by {
      ShortKeys(entries[k].key);
      hide Escape, Keys;
    }
    MemberFound(entries, k, write);
    hide Escape, Keys, MembersForm, Follow, ValueForm;
    PayloadLeads(Map(entries), entries[k].key, write);
  }

  /** From the form of a container, a segment leads to the form of the child it belongs to. */
  lemma SegmentLeads(v: DataValue, k: nat, write: Writer)
    requires WellFormed(v) && k < |Children(v)|
    ensures Follow(ValueForm(v, write), Keys(RenderSegment(Children(v)[k].segment))) ==
            Some(ValueForm(Children(v)[k].value, write))
    ensures WellFormed(Children(v)[k].value)
  {
    hide Escape, Keys, Numeral, ValueForm, Follow;
    if v.List? {
      assert Children(v)[k] == Item(Index(k), v.items[k]);
      IndexLeads(v.items, k, write);
    } else {
      assert Children(v)[k] == Item(Key(v.entries[k].key), v.entries[k].value);
      KeyLeads(v.entries, k, write);
    }
  }

  lemma ArgumentLeads(actionId: string, args: seq<Entry>, k: nat, write: Writer)
    requires CallWellFormed(args) && k < |args|
    ensures Follow(CallForm(actionId, args, write), Keys(RenderSegment(Arg(args[k].key)))) ==
            Some(ValueForm(args[k].value, write))
  {
    ShortKeys(args[k].key);
    hide Escape, Keys;
    MemberFound(args, k, write);
    FollowTwo(CallForm(actionId, args, write), "args", args[k].key);
  }

  /** The pointer of the node leads to the form of its value. */
  ghost predicate Located(root: Json, n: Node, write: Writer) {
    Follow(root, Keys(RenderPath(n.path))) == Some(ValueForm(n.value, write))
  }

  lemma StepDown(root: Json, path: seq<Segment>, v: DataValue, k: nat, write: Writer)
    requires Located(root, Node(path, v), write) && WellFormed(v) && k < |Children(v)|
    ensures Located(root, Node(path + [Children(v)[k].segment], Children(v)[k].value), write)
    ensures WellFormed(Children(v)[k].value)
  {
    var item := Children(v)[k];
    SegmentLeads(v, k, write);
    RenderLast(path, item.segment);
    assert RenderSegment(item.segment)[0] == '/';
    hide Keys, RenderPath, ValueForm, RenderSegment, Children, WellFormed;
    NavigateInTwoSteps(root, RenderPath(path), RenderSegment(item.segment));
  }

  lemma {:induction false} BelowIsLocated(root: Json, v: DataValue, k: nat, path: seq<Segment>, write: Writer)
    requires k <= |Children(v)| && WellFormed(v) && Located(root, Node(path, v), write)
    ensures forall n :: n in NodesBelow(v, k, path) ==> Located(root, n, write)
    decreases v, |Children(v)| - k
  {
    hide Located, WellFormed;
    if k < |Children(v)| {
      var item := Children(v)[k];
      StepDown(root, path, v, k, write);
      BelowIsLocated(root, item.value, 0, path + [item.segment], write);
      BelowIsLocated(root, v, k + 1, path, write);
    }
  }

  lemma {:induction false} CallIsLocated(actionId: string, args: seq<Entry>, k: nat, write: Writer)
    requires CallWellFormed(args) && k <= |args|
    ensures forall n :: n in NodesOfCall(args, k) ==> Located(CallForm(actionId, args, write), n, write)
    decreases |args| - k
  {
    if k < |args| {
      var root, here := CallForm(actionId, args, write), [Arg(args[k].key)];
      ArgumentLeads(actionId, args, k, write);
      RenderLast([], Arg(args[k].key));
      assert [] + here == here;
      assert Located(root, Node(here, args[k].value), write) by {
        assert RenderPath(here) == RenderSegment(Arg(args[k].key));
      }
      hide Located, WellFormed, CallForm;
      BelowIsLocated(root, args[k].value, 0, here, write);
      CallIsLocated(actionId, args, k + 1, write);
    }
  }

  // --- Depths in preorder --------------------------------------------------------------

  /** No value lies more than one level below the one before it. */
  ghost predicate Gradual(nodes: seq<Node>, above: nat) {
    && (forall i :: 0 <= i < |nodes| ==> |nodes[i].path| > above)
    && (nodes != [] ==> |nodes[0].path| == above + 1)
    && (forall i :: 0 < i < |nodes| ==> OneLevelAtMost(nodes, i))
  }

  ghost predicate OneLevelAtMost(nodes: seq<Node>, i: nat)
    requires 0 < i < |nodes|
  {
    |nodes[i].path| <= |nodes[i - 1].path| + 1
  }

  lemma GradualJoins(n: Node, below: seq<Node>, rest: seq<Node>, above: nat)
    requires |n.path| == above + 1 && Gradual(below, above + 1) && Gradual(rest, above)
    ensures Gradual([n] + below + rest, above)
  {
    var all := [n] + below + rest;
    assert forall i :: 0 < i <= |below| ==> all[i] == below[i - 1];
    assert forall i :: |below| < i < |all| ==> all[i] == rest[i - 1 - |below|];
    forall i | 0 < i < |all| ensures OneLevelAtMost(all, i) {
      if 1 < i <= |below| {
        assert OneLevelAtMost(below, i - 1);
      } else if i > |below| + 1 {
        assert OneLevelAtMost(rest, i - 1 - |below|);
      }
    }
  }

  lemma {:induction false} BelowIsGradual(v: DataValue, k: nat, path: seq<Segment>)
    requires k <= |Children(v)|
    ensures Gradual(NodesBelow(v, k, path), |path|)
    decreases v, |Children(v)| - k
  {
    if k < |Children(v)| {
      var item := Children(v)[k];
      var here := path + [item.segment];
      BelowIsGradual(item.value, 0, here);
      BelowIsGradual(v, k + 1, path);
      hide Gradual;
      GradualJoins(Node(here, item.value), NodesBelow(item.value, 0, here), NodesBelow(v, k + 1, path), |path|);
    }
  }

  lemma {:induction false} CallIsGradual(args: seq<Entry>, k: nat)
    requires k <= |args|
    ensures Gradual(NodesOfCall(args, k), 0)
    decreases |args| - k
  {
    if k < |args| {
      var here := [Arg(args[k].key)];
      BelowIsGradual(args[k].value, 0, here);
      CallIsGradual(args, k + 1);
      hide Gradual;
      GradualJoins(Node(here, args[k].value), NodesBelow(args[k].value, 0, here), NodesOfCall(args, k + 1), 0);
    }
  }

  // --- What a failure means ------------------------------------------------------------

  ghost predicate OverlongKey(n: Node) {
    n.path != [] && n.path[|n.path| - 1].Key? && Utf8Len(n.path[|n.path| - 1].key) > 4096
  }

  ghost predicate OverlongText(n: Node) {
    n.value.Text? && Utf8Len(n.value.text) > 4096
  }

  /** The value is within every limit when `before` values precede it. */
  ghost predicate WithinLimits(n: Node, before: nat) {
    !OverlongKey(n) && |n.path| <= 32 && before < 4096 && !OverlongText(n)
  }

  /** The error names what is wrong with the value and where it is: at the value itself, or at its
      text when that is too long. */
  ghost predicate Explains(root: Json, n: Node, before: nat, error: BudgetError, write: Writer) {
    match error.limit
    case ValueDepth =>
      |n.path| == 33 && !OverlongKey(n) && Follow(root, Keys(error.pointer)) == Some(ValueForm(n.value, write))
    case ValueNodes =>
      before == 4096 && |n.path| <= 32 && !OverlongKey(n)
      && Follow(root, Keys(error.pointer)) == Some(ValueForm(n.value, write))
    case ValueStringBytes =>
      if OverlongKey(n) then Follow(root, Keys(error.pointer)) == Some(ValueForm(n.value, write))
      else
        |n.path| <= 32 && before < 4096 && OverlongText(n)
        && Follow(root, Keys(error.pointer)) == Some(Scalar(n.value.text))
  }

  lemma ReportedIff(n: Node, before: nat)
    requires n.path != []
    ensures Reported(n, before) == None <==> WithinLimits(n, before)
  {
  }

  lemma TextLocated(root: Json, n: Node, write: Writer)
    requires Located(root, n, write) && n.value.Text?
    ensures Follow(root, Keys(RenderPath(n.path) + "/value")) == Some(Scalar(n.value.text))
  {
    ShortKeys("");
    hide Escape, Keys, RenderPath;
    NavigateInTwoSteps(root, RenderPath(n.path), "/value");
    hide Follow, ValueForm;
    PayloadLeads(n.value, "", write);
  }

  lemma ReportExplains(root: Json, n: Node, before: nat, error: BudgetError, write: Writer)
    requires n.path != [] && |n.path| <= 33 && before <= 4096
    requires Reported(n, before) == Some(error) && Located(root, n, write)
    ensures Explains(root, n, before, error, write)
  {
    hide Keys, RenderPath, ValueForm, Follow, Utf8Len;
    if n.value.Text? {
      TextLocated(root, n, write);
    }
  }

  lemma {:induction false} DepthAtFailure(nodes: seq<Node>, k: nat)
    requires Gradual(nodes, 0) && k < |nodes| && forall j :: 0 <= j < k ==> |nodes[j].path| <= 32
    ensures |nodes[k].path| <= 33
  {
    if k > 0 {
      assert OneLevelAtMost(nodes, k);
    }
  }

  /** A failing call has a first value in preorder that breaks a limit, all before it being within
      them, and the error names that limit and points at that value in the JSON form of the call. */
  lemma FailuresPoint(actionId: string, args: seq<Entry>, write: Writer) returns (k: nat)
    requires CallWellFormed(args) && WalkCall(args).Failed?
    ensures k < |NodesOfCall(args, 0)|
    ensures Explains(CallForm(actionId, args, write), NodesOfCall(args, 0)[k], k, WalkCall(args).error, write)
    ensures forall j :: 0 <= j < k ==> WithinLimits(NodesOfCall(args, 0)[j], j)
  {
    var nodes, root, error := NodesOfCall(args, 0), CallForm(actionId, args, write), WalkCall(args).error;
    CallFindsFirst(args);
    CallIsGradual(args, 0);
    CallIsLocated(actionId, args, 0, write);
    hide NodesOfCall, CallForm, WalkCall, Located, Explains, Reported, WithinLimits, Gradual;
    k :| FirstReported(nodes, 0, k, error);
    FitsBefore(nodes, k, error);
    ReportExplains(root, nodes[k], k, error, write);
  }

  lemma FitsBefore(nodes: seq<Node>, k: nat, error: BudgetError)
    requires Rooted(nodes) && Gradual(nodes, 0) && FirstReported(nodes, 0, k, error)
    ensures forall j :: 0 <= j < k ==> WithinLimits(nodes[j], j)
    ensures |nodes[k].path| <= 33 && k <= 4096
  {
    hide Reported;
    forall j | 0 <= j < k ensures WithinLimits(nodes[j], j) && |nodes[j].path| <= 32 && j < 4096 {
      ReportedIff(nodes[j], j);
      FitsMeans(nodes[j], j);
    }
    DepthAtFailure(nodes, k);
    if k > 0 {
      FitsMeans(nodes[k - 1], k - 1);
    }
  }

  lemma FitsMeans(n: Node, before: nat)
    requires WithinLimits(n, before)
    ensures |n.path| <= 32 && before < 4096
  {
  }

  /** A call passes if and only if every value, with the values before it, is within the limits. */
  lemma PassingMeansWithin(args: seq<Entry>)
    ensures WalkCall(args).Passed? <==>
            forall j :: 0 <= j < |NodesOfCall(args, 0)| ==> WithinLimits(NodesOfCall(args, 0)[j], j)
  {
    var nodes := NodesOfCall(args, 0);
    CallFindsFirst(args);
    hide NodesOfCall, WalkCall, Reported, WithinLimits;
    forall j | 0 <= j < |nodes| ensures Reported(nodes[j], j) == None <==> WithinLimits(nodes[j], j) {
      ReportedIff(nodes[j], j);
    }
  }
}
