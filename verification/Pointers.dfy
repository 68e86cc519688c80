/** RFC 6901 pointers as text: token escaping, rendering, the subtree test and navigation. */
module Pointers {
  import opened Digits
  import opened Options
  import opened Texts

  // --- Escaping ------------------------------------------------------------------------

  /** Replaces every occurrence of one character. */
  function ReplaceChar(s: string, c: char, sub: string): string {
    if s == "" then "" else (if s[0] == c then sub else [s[0]]) + ReplaceChar(s[1..], c, sub)
  }

  /** Replaces every occurrence of a two-character pattern, scanning left to right. */
  function ReplacePair(s: string, a: char, b: char, sub: string): string {
    if |s| < 2 then s
    else if s[0] == a && s[1] == b then sub + ReplacePair(s[2..], a, b, sub)
    else [s[0]] + ReplacePair(s[1..], a, b, sub)
  }

  function Escape(token: string): string {
    ReplaceChar(ReplaceChar(token, '~', "~0"), '/', "~1")
  }

  function Unescape(token: string): string {
    ReplacePair(ReplacePair(token, '~', '1', "/"), '~', '0', "~")
  }

  /** The escape of one character. */
  function EscapeOne(c: char): string {
    if c == '~' then "~0" else if c == '/' then "~1" else [c]
  }

  /** A token RFC 6901 admits: no `/`, and every `~` starts one of the two escapes. */
  predicate WellEscaped(s: string) {
    if s == "" then true
    else if s[0] == '~' then |s| >= 2 && (s[1] == '0' || s[1] == '1') && WellEscaped(s[2..])
    else s[0] != '/' && WellEscaped(s[1..])
  }

  lemma EscapeStep(t: string)
    requires t != ""
    ensures Escape(t) == EscapeOne(t[0]) + Escape(t[1..])
  {
    var x := ReplaceChar(t[1..], '~', "~0");
    if t[0] == '~' {
      ReplaceStep('~', "0" + x, '/', "~1");
      ReplaceStep('0', x, '/', "~1");
      assert "~0" + x == "~" + ("0" + x);
      assert "~" + ("0" + ReplaceChar(x, '/', "~1")) == "~0" + ReplaceChar(x, '/', "~1");
    } else {
      ReplaceStep(t[0], x, '/', "~1");
    }
  }

  lemma {:induction false} NothingToEscape(s: string)
    requires forall i :: 0 <= i < |s| ==> s[i] != '~' && s[i] != '/'
    ensures Escape(s) == s
  {
    if s != "" {
      NothingToEscape(s[1..]);
      EscapeStep(s);
    }
  }

  lemma ReplaceStep(head: char, rest: string, c: char, sub: string)
    ensures ReplaceChar([head] + rest, c, sub) == (if head == c then sub else [head]) + ReplaceChar(rest, c, sub)
  {
  }

  lemma {:induction false} SlashesComeBack(t: string)
    ensures ReplacePair(Escape(t), '~', '1', "/") == ReplaceChar(t, '~', "~0")
  {
    if t != "" {
      var rest := Escape(t[1..]);
      SlashesComeBack(t[1..]);
      EscapeStep(t);
      PairStep(EscapeOne(t[0]), rest, '1', "/");
    }
  }

  /** Scanning past one escaped character: it is replaced when its second half matches. */
  lemma PairStep(e: string, rest: string, b: char, sub: string)
    requires (|e| == 1 && e[0] != '~') || (|e| == 2 && e[0] == '~' && e[1] != '~')
    ensures ReplacePair(e + rest, '~', b, sub) ==
            (if |e| == 2 && e[1] == b then sub else e) + ReplacePair(rest, '~', b, sub)
  {
  }

  lemma {:induction false} TildesComeBack(t: string)
    ensures ReplacePair(ReplaceChar(t, '~', "~0"), '~', '0', "~") == t
  {
    if t != "" {
      TildesComeBack(t[1..]);
      PairStep(if t[0] == '~' then "~0" else [t[0]], ReplaceChar(t[1..], '~', "~0"), '0', "~");
      assert t == [t[0]] + t[1..];
    }
  }

  /** Unescaping undoes escaping on every string. */
  lemma UnescapeEscape(t: string)
    ensures Unescape(Escape(t)) == t
  {
    SlashesComeBack(t);
    TildesComeBack(t);
  }

  lemma {:induction false} EscapeIsWellEscaped(t: string)
    ensures WellEscaped(Escape(t))
  {
    if t != "" {
      EscapeIsWellEscaped(t[1..]);
      EscapeStep(t);
      var e, rest := EscapeOne(t[0]), Escape(t[1..]);
      assert (e + rest)[|e|..] == rest;
    }
  }

  lemma {:induction false} WellEscapedComesFromText(s: string) returns (t: string)
    requires WellEscaped(s)
    ensures Escape(t) == s
  {
    if s == "" {
      t := "";
    } else if s[0] == '~' {
      var rest := WellEscapedComesFromText(s[2..]);
      t := (if s[1] == '0' then "~" else "/") + rest;
      EscapeStep(t);
      assert t[1..] == rest && s == EscapeOne(t[0]) + s[2..];
    } else {
      var rest := WellEscapedComesFromText(s[1..]);
      t := [s[0]] + rest;
      EscapeStep(t);
      assert t[1..] == rest && s == [s[0]] + s[1..];
    }
  }

  /** Escaping undoes unescaping exactly on the tokens RFC 6901 admits. */
  lemma EscapeUnescape(s: string)
    ensures Escape(Unescape(s)) == s <==> WellEscaped(s)
  {
    EscapeIsWellEscaped(Unescape(s));
    if WellEscaped(s) {
      var t := WellEscapedComesFromText(s);
      UnescapeEscape(t);
    }
  }

  // --- Rendering and subtrees ----------------------------------------------------------

  /** The pointer text of a list of unescaped tokens. */
  function Render(tokens: seq<string>): string {
    if tokens == [] then "" else "/" + Escape(tokens[0]) + Render(tokens[1..])
  }

  predicate WithinSubtree(root: string, candidate: string) {
    root == "" || candidate == root || root + "/" <= candidate
  }

  predicate NoSlash(s: string) {
    forall i :: 0 <= i < |s| ==> s[i] != '/'
  }

  lemma {:induction false} WellEscapedHasNoSlash(s: string)
    requires WellEscaped(s)
    ensures NoSlash(s)
    decreases |s|
  {
    if s != "" {
      if s[0] == '~' {
        WellEscapedHasNoSlash(s[2..]);
        assert s == s[..2] + s[2..];
      } else {
        WellEscapedHasNoSlash(s[1..]);
        assert s == [s[0]] + s[1..];
      }
    }
  }

  /** Tokens without slashes cannot straddle a component boundary. */
  lemma TokenBoundary(e: string, f: string, x: string, y: string)
    requires NoSlash(e) && NoSlash(f) && x != "" && y != "" && x[0] == y[0] == '/'
    ensures e + x <= f + y <==> e == f && x <= y
  {
    if e + x <= f + y {
      assert forall i :: 0 <= i < |e + x| ==> (e + x)[i] == (f + y)[i];
      assert (e + x)[|e|] == '/' && (f + y)[|f|] == '/';
      assert |e| == |f|;
      assert e == (e + x)[..|e|] == (f + y)[..|e|] == f;
      assert x == (e + x)[|e|..] && y == (f + y)[|e|..];
    }
    if e == f && x <= y {
      assert f + y == e + x + y[|x|..];
    }
  }

  /** With a closing slash on both sides the subtree test is a plain prefix test. */
  lemma ClosedPrefix(x: string, y: string)
    ensures x + "/" <= y + "/" <==> y == x || x + "/" <= y
  {
    if x + "/" <= y + "/" && |x| < |y| {
      assert (y + "/")[..|x| + 1] == y[..|x| + 1];
    }
    if x + "/" <= y {
      assert y + "/" == (x + "/") + (y + "/")[|x| + 1..];
    }
    if x + "/" <= y + "/" && |x| == |y| {
      assert (x + "/")[..|x|] == (y + "/")[..|x|];
    }
  }

  lemma ComponentPrefix(s: string, t: string, x: string, y: string)
    requires (x != "" ==> x[0] == '/') && (y != "" ==> y[0] == '/')
    ensures "/" + Escape(s) + x + "/" <= "/" + Escape(t) + y + "/" <==> s == t && x + "/" <= y + "/"
  {
    var e, f := Escape(s), Escape(t);
    EscapeIsWellEscaped(s);
    EscapeIsWellEscaped(t);
    WellEscapedHasNoSlash(e);
    WellEscapedHasNoSlash(f);
    TokenBoundary(e, f, x + "/", y + "/");
    assert "/" + e + x + "/" == "/" + (e + (x + "/")) && "/" + f + y + "/" == "/" + (f + (y + "/"));
    HeadPrefix('/', e + (x + "/"), f + (y + "/"));
    UnescapeEscape(s);
    UnescapeEscape(t);
  }

  lemma {:induction false} RenderedPrefix(a: seq<string>, b: seq<string>)
    ensures Render(a) + "/" <= Render(b) + "/" <==> a <= b
    decreases |a|
  {
    hide Escape;
    if a != [] && b != [] {
      RenderedPrefix(a[1..], b[1..]);
      ComponentPrefix(a[0], b[0], Render(a[1..]), Render(b[1..]));
      TailPrefix(a, b);
    } else if a != [] {
      assert |Render(a)| >= 1;
    }
  }

  lemma HeadPrefix(c: char, s: string, t: string)
    ensures [c] + s <= [c] + t <==> s <= t
  {
    if [c] + s <= [c] + t {
      assert s == ([c] + s)[1..] && t == ([c] + t)[1..];
    }
    if s <= t {
      assert [c] + t == ([c] + s) + t[|s|..];
    }
  }

  lemma TailPrefix(a: seq<string>, b: seq<string>)
    requires a != [] && b != []
    ensures a <= b <==> a[0] == b[0] && a[1..] <= b[1..]
  {
  }

  /** The text test holds exactly when one token list extends the other. */
  lemma SubtreeIsPrefix(a: seq<string>, b: seq<string>)
    ensures WithinSubtree(Render(a), Render(b)) <==> a <= b
  {
    RenderedPrefix(a, b);
    ClosedPrefix(Render(a), Render(b));
  }

  // --- Navigation ----------------------------------------------------------------------

  datatype Json = Object(members: map<string, Json>) | Array(items: seq<Json>) | Scalar(text: string)

  const USIZE_MAX: int := 0xFFFF_FFFF_FFFF_FFFF

  /** Reads an array index the way `usize` is parsed: digits, optionally after a plus sign. */
  function ParseIndex(token: string): Option<nat> {
    var digits := if token != "" && token[0] == '+' then token[1..] else token;
    if digits == "" || !AllDigits(digits) || ValueOf(digits) > USIZE_MAX then None else Some(ValueOf(digits))
  }

  /** One step down, by an unescaped key. */
  function Child(v: Json, key: string): Option<Json> {
    match v
    case Object(members) => if key in members then Some(members[key]) else None
    case Array(items) =>
      (match ParseIndex(key)
       case Some(i) => if i < |items| then Some(items[i]) else None
       case None => None)
    case Scalar(_) => None
  }

  /** Follows unescaped keys down from `v`. */
  function Follow(v: Json, keys: seq<string>): Option<Json> {
    if keys == [] then Some(v)
    else match Child(v, keys[0])
      case Some(u) => Follow(u, keys[1..])
      case None => None
  }

  /** The pieces of a text between its slashes. */
  function Split(s: string): (parts: seq<string>)
    ensures |parts| >= 1
    decreases |s|
  {
    var k := FirstOf(s, '/');
    if k == |s| then [s] else [s[..k]] + Split(s[k + 1..])
  }

  function UnescapeAll(raw: seq<string>): (keys: seq<string>)
    ensures |keys| == |raw| && forall i :: 0 <= i < |raw| ==> keys[i] == Unescape(raw[i])
  {
    seq(|raw|, i requires 0 <= i < |raw| => Unescape(raw[i]))
  }

  /** The keys a pointer names: what stands before its first slash is ignored. */
  function Keys(pointer: string): seq<string> {
    if pointer == "" then [] else UnescapeAll(Split(pointer)[1..])
  }

  /** Moves a cursor down the document, token by token, until a step fails. */
  method Navigate(value: Json, pointer: string) returns (found: Option<Json>)
    ensures found == Follow(value, Keys(pointer))
  {
    if pointer == "" {
      return Some(value);
    }
    var raw := Split(pointer)[1..];
    ghost var keys := Keys(pointer);
    var current := value;
    for i := 0 to |raw|
      invariant Follow(value, keys) == Follow(current, keys[i..])
    {
      var next := Child(current, Unescape(raw[i]));
      assert keys[i..][0] == keys[i] && keys[i..][1..] == keys[i + 1..];
      if next.None? {
        return None;
      }
      current := next.value;
    }
    return Some(current);
  }

  lemma SplitStep(s: string)
    ensures FirstOf(s, '/') == |s| ==> Split(s) == [s]
    ensures FirstOf(s, '/') < |s| ==> Split(s) == [s[..FirstOf(s, '/')]] + Split(s[FirstOf(s, '/') + 1..])
  {
  }

  lemma {:induction false} SplitAtSlash(p: string, r: string)
    ensures Split(p + "/" + r) == Split(p) + Split(r)
    decreases |p|
  {
    hide FirstOf, Split;
    var s := p + "/" + r;
    var k := FirstOf(p, '/');
    SlashPosition(p, r);
    SplitStep(p);
    SplitStep(s);
    if k < |p| {
      var tail := p[k + 1..];
      SplitAtSlash(tail, r);
      assert s[k + 1..] == tail + "/" + r;
    }
  }

  lemma SlashPosition(p: string, r: string)
    ensures FirstOf(p + "/" + r, '/') == FirstOf(p, '/')
    ensures (p + "/" + r)[..FirstOf(p, '/')] == p[..FirstOf(p, '/')]
    ensures FirstOf(p, '/') == |p| ==> (p + "/" + r)[..|p|] == p && (p + "/" + r)[|p| + 1..] == r
  {
    hide FirstOf;
    var s, k := p + "/" + r, FirstOf(p, '/');
    assert forall i :: 0 <= i < |p| ==> s[i] == p[i];
    assert s[|p|] == '/';
    assert s[..|p|] == p;
  }

  /** The text a list of pieces was split from. */
  function Join(parts: seq<string>): string
    requires parts != []
  {
    if |parts| == 1 then parts[0] else parts[0] + "/" + Join(parts[1..])
  }

  lemma {:induction false} JoinSplit(s: string)
    ensures Join(Split(s)) == s
    decreases |s|
  {
    hide FirstOf, Split;
    SplitStep(s);
    var k := FirstOf(s, '/');
    if k < |s| {
      JoinSplit(s[k + 1..]);
      assert ([s[..k]] + Split(s[k + 1..]))[1..] == Split(s[k + 1..]);
      assert s == s[..k] + "/" + s[k + 1..];
    }
  }

  lemma KeysConcat(p: string, q: string)
    requires q != "" ==> q[0] == '/'
    ensures Keys(p + q) == Keys(p) + Keys(q)
  {
    hide Split, Unescape;
    if q == "" {
      assert p + q == p;
    } else {
      var r := q[1..];
      assert q == "" + "/" + r && p + q == p + "/" + r;
      SplitAtSlash(p, r);
      SplitAtSlash("", r);
      SplitEmpty();
      assert (Split(p) + Split(r))[1..] == Split(p)[1..] + Split(r);
      assert (Split("") + Split(r))[1..] == Split(r);
      assert UnescapeAll(Split(p)[1..] + Split(r)) == UnescapeAll(Split(p)[1..]) + UnescapeAll(Split(r));
      if p == "" {
        assert UnescapeAll(Split(p)[1..]) == [];
      }
    }
  }

  lemma SplitEmpty()
    ensures Split("") == [""]
  {
  }

  lemma {:induction false} FollowConcat(v: Json, a: seq<string>, b: seq<string>)
    ensures Follow(v, a + b) == match Follow(v, a) case Some(u) => Follow(u, b) case None => None
    decreases |a|
  {
    if a == [] {
      assert a + b == b;
    } else {
      assert (a + b)[1..] == a[1..] + b;
      match Child(v, a[0])
      case Some(u) => FollowConcat(u, a[1..], b);
      case None =>
    }
  }

  /** Navigating a concatenated pointer equals navigating in two steps. */
  lemma NavigateInTwoSteps(v: Json, p: string, q: string)
    requires q != "" ==> q[0] == '/'
    ensures Follow(v, Keys(p + q)) == match Follow(v, Keys(p)) case Some(u) => Follow(u, Keys(q)) case None => None
  {
    KeysConcat(p, q);
    FollowConcat(v, Keys(p), Keys(q));
  }

  lemma KeysOfOne(token: string)
    ensures Keys("/" + Escape(token)) == [token]
  {
    hide Unescape;
    var e := Escape(token);
    EscapeIsWellEscaped(token);
    WellEscapedHasNoSlash(e);
    SplitAtSlash("", e);
    SplitEmpty();
    assert "" + "/" + e == "/" + e;
    assert Split("/" + e)[1..] == [e];
    UnescapeEscape(token);
  }

  /** A rendered pointer names exactly the tokens it was rendered from. */
  lemma {:induction false} KeysOfRendered(tokens: seq<string>)
    ensures Keys(Render(tokens)) == tokens
  {
    if tokens != [] {
      hide Escape, Keys;
      KeysOfRendered(tokens[1..]);
      KeysOfOne(tokens[0]);
      KeysConcat("/" + Escape(tokens[0]), Render(tokens[1..]));
      assert tokens == [tokens[0]] + tokens[1..];
    }
  }

  /** A token is an index exactly when it is a numeral in range, with or without a plus sign. */
  lemma IndexTokens(token: string, i: nat)
    ensures ParseIndex(token) == Some(i) <==>
            exists digits :: (token == digits || token == "+" + digits) && DenotesIndex(digits, i)
  {
    var digits := if token != "" && token[0] == '+' then token[1..] else token;
    if ParseIndex(token) == Some(i) {
      assert token == digits || token == "+" + digits;
      assert DenotesIndex(digits, i);
    }
    if d :| (token == d || token == "+" + d) && DenotesIndex(d, i) {
      assert IsDigit(d[0]);
      assert d == digits;
    }
  }

  ghost predicate DenotesIndex(digits: string, i: nat) {
    digits != "" && AllDigits(digits) && ValueOf(digits) == i <= USIZE_MAX
  }
}
