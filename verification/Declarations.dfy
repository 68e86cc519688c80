/** The declaration bundle: checking action signatures in a pinned order, and the store they make. */
module Declarations {
  import opened Options
  import opened Pointers
  import opened Sorting
  import opened Texts

  const MAX_ACTION_SIGNATURES: nat := 1024
  const MAX_ACTION_PARAMETERS: nat := 32
  const MAX_ACTION_ID_BYTES: nat := 128

  datatype ValueType = Bool | Integer | Unsigned | Fixed | Text | ObjectRef | List | Map

  datatype Parameter = Parameter(name: string, valueType: ValueType, required: bool)

  datatype Signature = Signature(actionId: string, parameters: seq<Parameter>)

  datatype Limit = Actions | Parameters

  datatype Code = InvalidIdentifier | DuplicateAction | DuplicateParameter | LimitExceeded(kind: Limit, limit: nat)

  datatype SignatureError = SignatureError(code: Code, pointer: string)

  predicate ValidIdentifier(text: string) {
    text != "" && Utf8Len(text) <= MAX_ACTION_ID_BYTES
  }

  function ActionPointer(id: string): string {
    "/actions/" + Escape(id)
  }

  // --- What is reported, as a relation that does not look at order ---------------------

  ghost predicate Clean(names: multiset<string>) {
    forall n :: n in names ==> ValidIdentifier(n) && names[n] == 1
  }

  /** `n` is the lexically first name outside the allowed lengths. */
  ghost predicate FirstInvalid(names: multiset<string>, n: string) {
    n in names && !ValidIdentifier(n) && forall m :: m in names && !ValidIdentifier(m) ==> TextLe(n, m)
  }

  /** All names are allowed and `n` is the lexically first that occurs twice. */
  ghost predicate FirstDuplicate(names: multiset<string>, n: string) {
    && (forall m :: m in names ==> ValidIdentifier(m))
    && names[n] >= 2
    && forall m :: m in names && names[m] >= 2 ==> TextLe(n, m)
  }

  ghost predicate NamesReport(names: multiset<string>, prefix: string, duplicate: Code, r: Option<SignatureError>) {
    if r.None? then Clean(names)
    else
      || (exists n :: FirstInvalid(names, n) && r.value == SignatureError(InvalidIdentifier, prefix + Escape(n)))
      || (exists n :: FirstDuplicate(names, n) && r.value == SignatureError(duplicate, prefix + Escape(n)))
  }

  function ParameterNames(parameters: seq<Parameter>): (names: seq<string>)
    ensures |names| == |parameters| && forall i :: 0 <= i < |names| ==> names[i] == parameters[i].name
  {
    seq(|parameters|, i requires 0 <= i < |parameters| => parameters[i].name)
  }

  function ActionIds(signatures: seq<Signature>): (ids: seq<string>)
    ensures |ids| == |signatures| && forall i :: 0 <= i < |ids| ==> ids[i] == signatures[i].actionId
  {
    seq(|signatures|, i requires 0 <= i < |signatures| => signatures[i].actionId)
  }

  /** What the parameters of one action lead to. */
  ghost predicate SignatureReport(s: Signature, r: Option<SignatureError>) {
    if |s.parameters| > MAX_ACTION_PARAMETERS then
      r == Some(SignatureError(LimitExceeded(Parameters, MAX_ACTION_PARAMETERS),
                               ActionPointer(s.actionId) + "/parameters"))
    else
      NamesReport(multiset(ParameterNames(s.parameters)), ActionPointer(s.actionId) + "/parameters/",
                  DuplicateParameter, r)
  }

  /** `s` is the faulty action with the lexically first id. */
  ghost predicate FirstFaulty(signatures: seq<Signature>, s: Signature) {
    && s in signatures && !SignatureReport(s, None)
    && forall t :: t in signatures && !SignatureReport(t, None) ==> TextLe(s.actionId, t.actionId)
  }

  ghost predicate ParametersReport(signatures: seq<Signature>, r: Option<SignatureError>) {
    if r.None? then forall s :: s in signatures ==> SignatureReport(s, None)
    else exists s :: FirstFaulty(signatures, s) && SignatureReport(s, r)
  }

  ghost predicate Reports(signatures: seq<Signature>, r: Option<SignatureError>) {
    if |signatures| > MAX_ACTION_SIGNATURES then
      r == Some(SignatureError(LimitExceeded(Actions, MAX_ACTION_SIGNATURES), "/actions"))
    else if !Clean(multiset(ActionIds(signatures))) then
      NamesReport(multiset(ActionIds(signatures)), "/actions/", DuplicateAction, r)
    else
      ParametersReport(signatures, r)
  }

  // --- The relation leaves one answer --------------------------------------------------

  lemma NamesReportIsUnique(names: multiset<string>, prefix: string, duplicate: Code, r: Option<SignatureError>,
                            q: Option<SignatureError>)
    requires NamesReport(names, prefix, duplicate, r) && NamesReport(names, prefix, duplicate, q)
    ensures r == q
  {
    hide ValidIdentifier;
    forall m, n | FirstInvalid(names, m) && FirstInvalid(names, n) ensures m == n {
      TextLeAntisymmetric(m, n);
    }
    forall m, n | FirstDuplicate(names, m) && FirstDuplicate(names, n) ensures m == n {
      TextLeAntisymmetric(m, n);
    }
  }

  lemma SignatureReportIsUnique(s: Signature, r: Option<SignatureError>, q: Option<SignatureError>)
    requires SignatureReport(s, r) && SignatureReport(s, q)
    ensures r == q
  {
    hide NamesReport;
    if |s.parameters| <= MAX_ACTION_PARAMETERS {
      NamesReportIsUnique(multiset(ParameterNames(s.parameters)), ActionPointer(s.actionId) + "/parameters/",
                          DuplicateParameter, r, q);
    }
  }

  lemma CleanIdsAreDistinct(signatures: seq<Signature>, s: Signature, t: Signature)
    requires Clean(multiset(ActionIds(signatures))) && s in signatures && t in signatures && s.actionId == t.actionId
    ensures s == t
  {
    hide ValidIdentifier;
    var ids := ActionIds(signatures);
    var i :| 0 <= i < |signatures| && signatures[i] == s;
    var j :| 0 <= j < |signatures| && signatures[j] == t;
    assert ids[i] == ids[j] && ids[i] in multiset(ids);
    if i < j {
      PositionsMakeTwo(ids, i, j);
    } else if j < i {
      PositionsMakeTwo(ids, j, i);
    }
  }

  lemma ReportIsUnique(signatures: seq<Signature>, r: Option<SignatureError>, q: Option<SignatureError>)
    requires Reports(signatures, r) && Reports(signatures, q)
    ensures r == q
  {
    hide Clean, NamesReport, SignatureReport;
    var ids := multiset(ActionIds(signatures));
    if |signatures| > MAX_ACTION_SIGNATURES {
    } else if !Clean(ids) {
      NamesReportIsUnique(ids, "/actions/", DuplicateAction, r, q);
    } else if r.Some? && q.Some? {
      var s :| FirstFaulty(signatures, s) && SignatureReport(s, r);
      var t :| FirstFaulty(signatures, t) && SignatureReport(t, q);
      TextLeAntisymmetric(s.actionId, t.actionId);
      CleanIdsAreDistinct(signatures, s, t);
      SignatureReportIsUnique(s, r, q);
    }
  }

  // --- Permutations --------------------------------------------------------------------

  function Without<T>(s: seq<T>, k: nat): seq<T>
    requires k < |s|
  {
    s[..k] + s[k + 1..]
  }

  lemma WithoutOne<T>(s: seq<T>, k: nat)
    requires k < |s|
    ensures multiset(s) == multiset(Without(s, k)) + multiset{s[k]}
  {
    assert s == s[..k] + [s[k]] + s[k + 1..];
  }

  lemma IdsWithoutOne(s: seq<Signature>, k: nat)
    requires k < |s|
    ensures multiset(ActionIds(s)) == multiset(ActionIds(Without(s, k))) + multiset{s[k].actionId}
  {
    var ids := ActionIds(s);
    WithoutOne(ids, k);
    assert ActionIds(Without(s, k)) == Without(ids, k);
  }

  lemma CancelOne<T>(a: multiset<T>, b: multiset<T>, x: T)
    requires a + multiset{x} == b + multiset{x}
    ensures a == b
  {
    assert a == (a + multiset{x}) - multiset{x} == (b + multiset{x}) - multiset{x} == b;
  }

  lemma {:induction false} IdsOfPermutation(s: seq<Signature>, t: seq<Signature>)
    requires multiset(s) == multiset(t)
    ensures multiset(ActionIds(s)) == multiset(ActionIds(t))
    decreases |s|
  {
    if s == [] {
      assert |multiset(t)| == 0;
    } else {
      assert s[0] in multiset(t);
      var k :| 0 <= k < |t| && t[k] == s[0];
      var front, rest := Without(s, 0), Without(t, k);
      WithoutOne(s, 0);
      WithoutOne(t, k);
      CancelOne(multiset(front), multiset(rest), s[0]);
      IdsWithoutOne(s, 0);
      IdsWithoutOne(t, k);
      IdsOfPermutation(front, rest);
    }
  }

  lemma SameMembers<T>(s: seq<T>, t: seq<T>)
    requires multiset(s) == multiset(t)
    ensures |s| == |t| && forall x :: x in s <==> x in t
  {
    assert |multiset(s)| == |s| && |multiset(t)| == |t|;
    forall x ensures x in s <==> x in t {
      assert x in multiset(s) <==> x in multiset(t);
    }
  }

  lemma ReportOfPermutation(s: seq<Signature>, t: seq<Signature>, r: Option<SignatureError>)
    requires multiset(s) == multiset(t) && Reports(s, r)
    ensures Reports(t, r)
  {
    hide Clean, NamesReport, SignatureReport;
    IdsOfPermutation(s, t);
    SameMembers(s, t);
    if ParametersReport(s, r) && r.Some? {
      var x :| FirstFaulty(s, x) && SignatureReport(x, r);
      assert FirstFaulty(t, x);
    }
  }

  // --- Checking ------------------------------------------------------------------------

  function ById(a: Signature, b: Signature): bool {
    TextLe(a.actionId, b.actionId)
  }

  lemma TextOrders()
    ensures TotalPreorder(TextLe) && TotalPreorder(ById)
  {
    forall a, b ensures TextLe(a, b) || TextLe(b, a) { TextLeTotal(a, b); }
    forall a, b, c | TextLe(a, b) && TextLe(b, c) ensures TextLe(a, c) { TextLeTransitive(a, b, c); }
    hide TextLe;
    assert forall a, b :: ById(a, b) || ById(b, a);
    assert forall a, b, c {:trigger ById(a, b), ById(b, c)} :: ById(a, b) && ById(b, c) ==> ById(a, c);
  }

  /** Neighbours that differ make a sorted sequence free of duplicates. */
  lemma FirstEqualPair(names: seq<string>, k: nat, m: string)
    requires Sorted(names, TextLe) && k < |names| && multiset(names)[m] >= 2
    requires forall i :: 0 <= i < k ==> names[i] != names[i + 1]
    ensures TextLe(names[k], m)
  {
    hide TextLe;
    var i, j := TwoPositions(names, m);
    if i < k {
      assert TextLe(names[i], names[i + 1]);
      if i + 1 < j {
        assert TextLe(names[i + 1], names[j]);
        TextLeAntisymmetric(names[i], names[i + 1]);
      }
      assert false;
    }
    if i == k {
      TextLeTotal(m, m);
    }
  }

  lemma NoEqualPair(names: seq<string>, m: string)
    requires Sorted(names, TextLe) && m in multiset(names)
    requires forall i :: 0 <= i < |names| - 1 ==> names[i] != names[i + 1]
    ensures multiset(names)[m] == 1
  {
    hide TextLe;
    if multiset(names)[m] >= 2 {
      var i, j := TwoPositions(names, m);
      assert TextLe(names[i], names[i + 1]);
      if i + 1 < j {
        assert TextLe(names[i + 1], names[j]);
        TextLeAntisymmetric(names[i], names[i + 1]);
      }
      assert false;
    }
  }

  lemma InvalidFound(names: seq<string>, k: nat)
    requires Sorted(names, TextLe) && k < |names| && !ValidIdentifier(names[k])
    requires forall i :: 0 <= i < k ==> ValidIdentifier(names[i])
    ensures FirstInvalid(multiset(names), names[k])
  {
    hide TextLe, ValidIdentifier;
    forall m | m in multiset(names) && !ValidIdentifier(m) ensures TextLe(names[k], m) {
      assert m in names;
      TextLeTotal(m, m);
    }
  }

  lemma DuplicateFound(names: seq<string>, k: nat)
    requires Sorted(names, TextLe) && k + 1 < |names| && names[k] == names[k + 1]
    requires forall i :: 0 <= i < |names| ==> ValidIdentifier(names[i])
    requires forall i :: 0 <= i < k ==> names[i] != names[i + 1]
    ensures FirstDuplicate(multiset(names), names[k])
  {
    hide TextLe, ValidIdentifier;
    PositionsMakeTwo(names, k, k + 1);
    forall m | m in multiset(names) ensures ValidIdentifier(m) && (multiset(names)[m] >= 2 ==> TextLe(names[k], m)) {
      assert m in names;
      if multiset(names)[m] >= 2 {
        FirstEqualPair(names, k, m);
      }
    }
  }

  lemma NothingFound(names: seq<string>)
    requires Sorted(names, TextLe)
    requires forall i :: 0 <= i < |names| ==> ValidIdentifier(names[i])
    requires forall i :: 0 <= i < |names| - 1 ==> names[i] != names[i + 1]
    ensures Clean(multiset(names))
  {
    hide TextLe, ValidIdentifier;
    forall m | m in multiset(names) ensures ValidIdentifier(m) && multiset(names)[m] == 1 {
      assert m in names;
      NoEqualPair(names, m);
    }
  }

  /** The two passes over sorted names. */
  method CheckNames(names: seq<string>, prefix: string, duplicate: Code) returns (r: Option<SignatureError>)
    requires Sorted(names, TextLe)
    ensures NamesReport(multiset(names), prefix, duplicate, r)
  {
    hide TextLe, ValidIdentifier, Escape, FirstInvalid, FirstDuplicate, Clean, Sorted;
    for k := 0 to |names|
      invariant forall i :: 0 <= i < k ==> ValidIdentifier(names[i])
    {
      if !ValidIdentifier(names[k]) {
        InvalidFound(names, k);
        return Some(SignatureError(InvalidIdentifier, prefix + Escape(names[k])));
      }
    }
    var k := 1;
    while k < |names|
      invariant k >= 1
      invariant forall i :: 0 <= i < k - 1 && i < |names| - 1 ==> names[i] != names[i + 1]
    {
      if names[k - 1] == names[k] {
        DuplicateFound(names, k - 1);
        return Some(SignatureError(duplicate, prefix + Escape(names[k - 1])));
      }
      k := k + 1;
    }
    NothingFound(names);
    return None;
  }

  /** One action: the parameter count, then the sorted parameter names. */
  method CheckSignature(signature: Signature) returns (r: Option<SignatureError>)
    ensures SignatureReport(signature, r)
  {
    hide NamesReport;
    var action := ActionPointer(signature.actionId);
    if |signature.parameters| > MAX_ACTION_PARAMETERS {
      return Some(SignatureError(LimitExceeded(Parameters, MAX_ACTION_PARAMETERS), action + "/parameters"));
    }
    var names := ParameterNames(signature.parameters);
    TextOrders();
    SortSorts(names, TextLe);
    r := CheckNames(Sort(names, TextLe), action + "/parameters/", DuplicateParameter);
  }

  lemma SortedIds(order: seq<Signature>)
    requires Sorted(order, ById)
    ensures Sorted(ActionIds(order), TextLe)
  {
  }

  method CheckSorted(order: seq<Signature>) returns (r: Option<SignatureError>)
    requires |order| <= MAX_ACTION_SIGNATURES && Sorted(order, ById)
    ensures Reports(order, r)
  {
    hide TextLe, NamesReport, SignatureReport, Clean;
    SortedIds(order);
    var ids := ActionIds(order);
    r := CheckNames(ids, "/actions/", DuplicateAction);
    CleanIsNoReport(multiset(ids), "/actions/", DuplicateAction, r);
    if r.Some? {
      return;
    }
    for k := 0 to |order|
      invariant forall i :: 0 <= i < k ==> SignatureReport(order[i], None)
    {
      r := CheckSignature(order[k]);
      if r.Some? {
        FaultFound(order, k, r);
        return;
      }
    }
    r := None;
  }

  lemma CleanIsNoReport(names: multiset<string>, prefix: string, duplicate: Code, r: Option<SignatureError>)
    requires NamesReport(names, prefix, duplicate, r)
    ensures r.None? <==> Clean(names)
  {
  }

  lemma FaultFound(order: seq<Signature>, k: nat, r: Option<SignatureError>)
    requires Sorted(order, ById) && k < |order| && r.Some? && SignatureReport(order[k], r)
    requires forall i :: 0 <= i < k ==> SignatureReport(order[i], None)
    ensures ParametersReport(order, r)
  {
    hide TextLe, SignatureReport;
    if SignatureReport(order[k], None) {
      SignatureReportIsUnique(order[k], r, None);
      assert false;
    }
    forall t | t in order && !SignatureReport(t, None) ensures TextLe(order[k].actionId, t.actionId) {
      var j :| 0 <= j < |order| && order[j] == t;
      if j == k {
        TextLeTotal(t.actionId, t.actionId);
      } else {
        assert ById(order[k], order[j]);
      }
    }
    assert FirstFaulty(order, order[k]);
  }

  /** Checks the declarations in lexical order of their ids. */
  method CheckDeclarations(signatures: seq<Signature>) returns (r: Option<SignatureError>)
    ensures Reports(signatures, r)
  {
    if |signatures| > MAX_ACTION_SIGNATURES {
      return Some(SignatureError(LimitExceeded(Actions, MAX_ACTION_SIGNATURES), "/actions"));
    }
    hide Reports;
    TextOrders();
    SortSorts(signatures, ById);
    var order := Sort(signatures, ById);
    SameMembers(order, signatures);
    r := CheckSorted(order);
    ReportOfPermutation(order, signatures, r);
  }

  // --- Acceptance and the store --------------------------------------------------------

  ghost predicate DistinctNames(names: seq<string>) {
    && (forall i :: 0 <= i < |names| ==> ValidIdentifier(names[i]))
    && (forall i, j :: 0 <= i < j < |names| ==> names[i] != names[j])
  }

  ghost predicate LegalSignature(s: Signature) {
    |s.parameters| <= MAX_ACTION_PARAMETERS && DistinctNames(ParameterNames(s.parameters))
  }

  /** The bundles the documentation calls valid. */
  ghost predicate Legal(signatures: seq<Signature>) {
    && |signatures| <= MAX_ACTION_SIGNATURES
    && DistinctNames(ActionIds(signatures))
    && forall s :: s in signatures ==> LegalSignature(s)
  }

  lemma CleanIsDistinct(names: seq<string>)
    ensures Clean(multiset(names)) <==> DistinctNames(names)
  {
    hide ValidIdentifier;
    if Clean(multiset(names)) {
      forall i | 0 <= i < |names| ensures ValidIdentifier(names[i]) {
        assert names[i] in multiset(names);
      }
      forall i, j | 0 <= i < j < |names| ensures names[i] != names[j] {
        if names[i] == names[j] {
          PositionsMakeTwo(names, i, j);
          assert false;
        }
      }
    }
    if DistinctNames(names) {
      forall n | n in multiset(names) ensures ValidIdentifier(n) && multiset(names)[n] == 1 {
        assert n in names;
        if multiset(names)[n] >= 2 {
          var i, j := TwoPositions(names, n);
          assert false;
        }
      }
    }
  }

  /** A bundle is accepted exactly when it is legal. */
  lemma AcceptedIffLegal(signatures: seq<Signature>, r: Option<SignatureError>)
    requires Reports(signatures, r)
    ensures r.None? <==> Legal(signatures)
  {
    hide DistinctNames, Clean;
    var ids := ActionIds(signatures);
    CleanIsDistinct(ids);
    forall s: Signature ensures SignatureReport(s, None) <==> LegalSignature(s) {
      CleanIsDistinct(ParameterNames(s.parameters));
    }
    if |signatures| <= MAX_ACTION_SIGNATURES && !Clean(multiset(ids)) {
      CleanIsNoReport(multiset(ids), "/actions/", DuplicateAction, r);
    }
    hide NamesReport, SignatureReport, LegalSignature;
  }

  /** The store of a bundle: each declaration under its own id, and nothing else. */
  ghost predicate IsStore(signatures: seq<Signature>, store: map<string, Signature>) {
    && (forall s :: s in signatures ==> s.actionId in store && store[s.actionId] == s)
    && (forall id :: id in store ==> store[id] in signatures && store[id].actionId == id)
  }

  datatype BuildResult = Built(store: map<string, Signature>) | Failed(error: SignatureError)

  lemma StoreGrows(signatures: seq<Signature>, k: nat, store: map<string, Signature>)
    requires k < |signatures| && DistinctNames(ActionIds(signatures)) && IsStore(signatures[..k], store)
    ensures IsStore(signatures[..k + 1], store[signatures[k].actionId := signatures[k]])
  {
  }

  method NewStore(signatures: seq<Signature>) returns (r: BuildResult)
    ensures r.Built? <==> Legal(signatures)
    ensures r.Built? ==> IsStore(signatures, r.store)
    ensures r.Failed? ==> Reports(signatures, Some(r.error))
  {
    hide Reports;
    var error := CheckDeclarations(signatures);
    AcceptedIffLegal(signatures, error);
    if error.Some? {
      return Failed(error.value);
    }
    var store: map<string, Signature> := map[];
    assert IsStore(signatures[..0], store);
    hide IsStore, DistinctNames;
    for k := 0 to |signatures|
      invariant IsStore(signatures[..k], store)
    {
      StoreGrows(signatures, k, store);
      store := store[signatures[k].actionId := signatures[k]];
    }
    assert signatures[..|signatures|] == signatures;
    return Built(store);
  }

  /** Reordering a bundle changes neither the first failure nor the store. */
  lemma OrderIsIrrelevant(s: seq<Signature>, t: seq<Signature>, r: Option<SignatureError>, q: Option<SignatureError>,
                          a: map<string, Signature>, b: map<string, Signature>)
    requires multiset(s) == multiset(t) && Reports(s, r) && Reports(t, q)
    ensures r == q
    ensures IsStore(s, a) && IsStore(t, b) ==> a == b
  {
    ReportOfPermutation(s, t, r);
    ReportIsUnique(t, r, q);
    SameMembers(s, t);
    hide Reports;
    if IsStore(s, a) && IsStore(t, b) {
      assert forall id :: id in a <==> id in b;
    }
  }

  // --- Where errors point --------------------------------------------------------------

  lemma PointerOfAction(id: string)
    ensures Keys("/actions") == ["actions"] && Keys("/actions/" + Escape(id)) == ["actions", id]
  {
    assert Render(["actions"]) == "/actions" && Render(["actions", id]) == "/actions/" + Escape(id) by {
      RenderActions(id);
    }
    hide Escape, Keys, Render;
    KeysOfRendered(["actions"]);
    KeysOfRendered(["actions", id]);
  }

  lemma RenderActions(id: string)
    ensures Render(["actions"]) == "/actions"
    ensures Render(["actions", id]) == "/actions/" + Escape(id)
  {
    PlainEscapes();
    hide Escape;
    assert ["actions", id][1..] == [id] && [id][1..] == [] && ["actions"][1..] == [];
    assert Render([]) == "" && Render([id]) == "/" + Escape(id) + "";
    assert "/" + "actions" + "" == "/actions";
    assert "/" + "actions" + ("/" + Escape(id) + "") == "/actions/" + Escape(id);
  }

  lemma PlainEscapes()
    ensures Escape("actions") == "actions" && Escape("parameters") == "parameters"
  {
    hide Escape;
    NothingToEscape("actions");
    NothingToEscape("parameters");
  }

  lemma PointerOfParameter(id: string, name: string)
    ensures Keys(ActionPointer(id) + "/parameters") == ["actions", id, "parameters"]
    ensures Keys(ActionPointer(id) + "/parameters/" + Escape(name)) == ["actions", id, "parameters", name]
  {
    PlainEscapes();
    PointerOfAction(id);
    KeysOfOne("parameters");
    KeysOfOne(name);
    hide Escape, Keys;
    var action, list, one := "/actions/" + Escape(id), "/parameters", "/" + Escape(name);
    assert "/" + "parameters" == list;
    KeysConcat(action, list);
    KeysConcat(action + list, one);
    assert action + list + one == action + "/parameters/" + Escape(name);
  }

  /** The pointer of every error names the offender: the action list, an action by its id, an action's
      parameter list, or a parameter by the id of its action and its name. */
  ghost predicate PointsAtOffender(signatures: seq<Signature>, e: SignatureError) {
    match e.code
    case LimitExceeded(Actions, limit) => |signatures| > limit == 1024 && Keys(e.pointer) == ["actions"]
    case LimitExceeded(Parameters, limit) =>
      limit == 32 && exists s :: s in signatures && |s.parameters| > limit
                                 && Keys(e.pointer) == ["actions", s.actionId, "parameters"]
    case DuplicateAction =>
      exists i, j :: 0 <= i < j < |signatures| && signatures[i].actionId == signatures[j].actionId
                     && Keys(e.pointer) == ["actions", signatures[i].actionId]
    case DuplicateParameter =>
      exists s, i, j :: s in signatures && 0 <= i < j < |s.parameters| && s.parameters[i].name == s.parameters[j].name
                        && Keys(e.pointer) == ["actions", s.actionId, "parameters", s.parameters[i].name]
    case InvalidIdentifier =>
      || (exists s :: s in signatures && !ValidIdentifier(s.actionId) && Keys(e.pointer) == ["actions", s.actionId])
      || (exists s, p :: s in signatures && p in s.parameters && !ValidIdentifier(p.name)
                         && Keys(e.pointer) == ["actions", s.actionId, "parameters", p.name])
  }

  lemma IdErrorPoints(signatures: seq<Signature>, e: SignatureError)
    requires NamesReport(multiset(ActionIds(signatures)), "/actions/", DuplicateAction, Some(e))
    ensures PointsAtOffender(signatures, e)
  {
    var ids := ActionIds(signatures);
    hide ValidIdentifier, Escape, Keys;
    if n :| FirstInvalid(multiset(ids), n) && e == SignatureError(InvalidIdentifier, "/actions/" + Escape(n)) {
      PointerOfAction(n);
      var i :| 0 <= i < |ids| && ids[i] == n;
      assert signatures[i] in signatures && signatures[i].actionId == n;
    } else {
      var n :| FirstDuplicate(multiset(ids), n) && e == SignatureError(DuplicateAction, "/actions/" + Escape(n));
      PointerOfAction(n);
      var i, j := TwoPositions(ids, n);
      assert signatures[i].actionId == signatures[j].actionId;
    }
  }

  lemma ParameterErrorPoints(signatures: seq<Signature>, s: Signature, e: SignatureError)
    requires s in signatures && SignatureReport(s, Some(e))
    ensures PointsAtOffender(signatures, e)
  {
    hide ValidIdentifier, Escape, Keys, ActionPointer;
    if |s.parameters| > MAX_ACTION_PARAMETERS {
      PointerOfParameter(s.actionId, "");
    } else {
      var names, prefix := ParameterNames(s.parameters), ActionPointer(s.actionId) + "/parameters/";
      if n :| FirstInvalid(multiset(names), n) && e == SignatureError(InvalidIdentifier, prefix + Escape(n)) {
        PointerOfParameter(s.actionId, n);
        var i :| 0 <= i < |names| && names[i] == n;
        assert s.parameters[i] in s.parameters && s.parameters[i].name == n;
      } else {
        var n :| FirstDuplicate(multiset(names), n) && e == SignatureError(DuplicateParameter, prefix + Escape(n));
        PointerOfParameter(s.actionId, n);
        var i, j := TwoPositions(names, n);
        assert s.parameters[i].name == s.parameters[j].name;
      }
    }
  }

  lemma ErrorsPointAtOffenders(signatures: seq<Signature>, e: SignatureError)
    requires Reports(signatures, Some(e))
    ensures PointsAtOffender(signatures, e)
  {
    hide NamesReport, SignatureReport, Clean;
    if |signatures| > MAX_ACTION_SIGNATURES {
      PointerOfAction("");
    } else if !Clean(multiset(ActionIds(signatures))) {
      IdErrorPoints(signatures, e);
    } else {
      hide PointsAtOffender;
      var s :| FirstFaulty(signatures, s) && SignatureReport(s, Some(e));
      ParameterErrorPoints(signatures, s, e);
    }
  }

  /** Identifiers are texts of 1 to 128 UTF-8 bytes. */
  lemma IdentifiersInBytes(text: string)
    ensures ValidIdentifier(text) <==> 1 <= |Utf8Bytes(text)| <= 128
  {
    LengthIsBytes(text);
  }
}
