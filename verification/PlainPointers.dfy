/** Pointers joined from plain keys, as the documentation of `navigate` describes them, against the
    unescaping that it does. */
module PlainPointers {
  import opened Options
  import opened Pointers
  import opened Texts

  /** Keys joined by slashes, without escaping. */
  function Joined(keys: seq<string>): string {
    if keys == [] then "" else "/" + keys[0] + Joined(keys[1..])
  }

  predicate PairAt(s: string, b: char, i: nat) {
    i + 1 < |s| && s[i] == '~' && s[i + 1] == b
  }

  /** No `~` is followed by `b`. */
  ghost predicate NoPair(s: string, b: char) {
    forall i: nat :: !PairAt(s, b, i)
  }

  /** A key that reads the same escaped and unescaped. */
  ghost predicate Plain(key: string) {
    NoSlash(key) && NoPair(key, '0') && NoPair(key, '1')
  }

  /** Replacing a pair by one character shortens the text unless there is none. */
  lemma {:induction false} ReplacementShortens(s: string, b: char, sub: string)
    requires |sub| == 1
    ensures |ReplacePair(s, '~', b, sub)| <= |s|
    ensures NoPair(s, b) ==> ReplacePair(s, '~', b, sub) == s
    ensures !NoPair(s, b) ==> |ReplacePair(s, '~', b, sub)| < |s|
    decreases |s|
  {
    if |s| >= 2 {
      if s[0] == '~' && s[1] == b {
        assert PairAt(s, b, 0);
        ReplacementShortens(s[2..], b, sub);
      } else {
        ReplacementShortens(s[1..], b, sub);
        assert s == [s[0]] + s[1..];
        assert forall i: nat :: PairAt(s[1..], b, i) ==> PairAt(s, b, i + 1);
        assert forall i: nat :: PairAt(s, b, i) ==> i > 0 && PairAt(s[1..], b, i - 1);
      }
    }
  }

  /** Unescaping leaves a text alone if and only if no `~` in it is followed by `0` or `1`. */
  lemma UnescapeIsIdentity(t: string)
    ensures Unescape(t) == t <==> NoPair(t, '0') && NoPair(t, '1')
  {
    hide ReplacePair, NoPair;
    var once := ReplacePair(t, '~', '1', "/");
    ReplacementShortens(t, '1', "/");
    ReplacementShortens(once, '0', "~");
  }

  lemma {:induction false} SplitsOnce(s: string)
    ensures |Split(s)| == 1 <==> NoSlash(s)
    ensures NoSlash(s) ==> Split(s) == [s]
  {
    SplitStep(s);
  }

  lemma KeysOfPlainOne(key: string)
    ensures |Keys("/" + key)| >= 1
    ensures Plain(key) <==> Keys("/" + key) == [key]
  {
    hide Unescape, Split, NoSlash, NoPair;
    SplitAtSlash("", key);
    SplitEmpty();
    assert "" + "/" + key == "/" + key;
    assert Split("/" + key)[1..] == Split(key);
    SplitsOnce(key);
    UnescapeIsIdentity(key);
    assert |Keys("/" + key)| == |Split(key)|;
    assert NoSlash(key) ==> Keys("/" + key) == [Unescape(key)];
  }

  /** Joining keys and reading them back gives the same keys if and only if all of them are plain. */
  lemma {:induction false} KeysOfJoined(keys: seq<string>)
    ensures |Keys(Joined(keys))| >= |keys|
    ensures Keys(Joined(keys)) == keys <==> forall i :: 0 <= i < |keys| ==> Plain(keys[i])
  {
    if keys != [] {
      hide Keys, Plain;
      var head, tail := "/" + keys[0], Joined(keys[1..]);
      KeysOfJoined(keys[1..]);
      KeysOfPlainOne(keys[0]);
      KeysConcat(head, tail);
      var first, rest := Keys(head), Keys(tail);
      assert keys == [keys[0]] + keys[1..];
      assert first + rest == [keys[0]] + keys[1..] <==> first == [keys[0]] && rest == keys[1..] by {
        SameHead(first, rest, keys);
      }
    }
  }

  lemma SameHead(first: seq<string>, rest: seq<string>, keys: seq<string>)
    requires keys != [] && |first| >= 1 && |rest| >= |keys| - 1
    ensures first + rest == keys <==> first == keys[..1] && rest == keys[1..]
  {
    var all := first + rest;
    if all == keys {
      assert |first| == 1;
      assert first == all[..1] && rest == all[1..];
    }
    assert keys == keys[..1] + keys[1..];
  }

  /** A document that holds one scalar, under these keys. */
  function Nested(keys: seq<string>): Json {
    if keys == [] then Scalar("") else Object(map[keys[0] := Nested(keys[1..])])
  }

  lemma {:induction false} OnlyItsOwnKeys(keys: seq<string>, other: seq<string>)
    ensures Follow(Nested(keys), other) == Some(Scalar("")) <==> keys == other
    decreases |keys|
  {
    if keys != [] && other != [] {
      OnlyItsOwnKeys(keys[1..], other[1..]);
      assert keys == [keys[0]] + keys[1..] && other == [other[0]] + other[1..];
    }
  }

  /** The documented reading of a pointer as slash-joined plain keys is right in every document if
      and only if no key holds a slash, or a `~` followed by `0` or `1`. */
  lemma PlainKeysNavigate(keys: seq<string>)
    ensures (forall v :: Follow(v, Keys(Joined(keys))) == Follow(v, keys)) <==>
            forall i :: 0 <= i < |keys| ==> Plain(keys[i])
  {
    hide Keys, Plain;
    KeysOfJoined(keys);
    OnlyItsOwnKeys(keys, keys);
    OnlyItsOwnKeys(keys, Keys(Joined(keys)));
    var v := Nested(keys);
    if Keys(Joined(keys)) != keys {
      assert Follow(v, Keys(Joined(keys))) != Follow(v, keys);
    }
  }

  /** The key `~1` of an object is not found under its own name. */
  lemma TildeOneIsNotFound()
    ensures Follow(Object(map["~1" := Scalar("")]), Keys(Joined(["~1"]))) == None
    ensures Follow(Object(map["~1" := Scalar("")]), ["~1"]) == Some(Scalar(""))
  {
    hide Keys;
    assert Joined(["~1"]) == "/~1" by { assert "/" + "~1" + "" == "/~1"; }
    assert Escape("/") == "~1";
    KeysOfOne("/");
    assert "/" + "~1" == "/~1";
    assert Keys("/~1") == ["/"];
  }
}
