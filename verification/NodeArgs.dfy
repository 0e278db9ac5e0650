/** Merging a chain's node arguments with those of a composite. */
module NodeArgs {
  import opened Search
  import opened Utf8

  /** `argument_key`: what stands before the first equals sign. */
  function Key(argument: Text): Text {
    argument[..IndexOf(argument, '=')]
  }

  function Keys(args: seq<Text>): set<Text> {
    set a | a in args :: Key(a)
  }

  /** The arguments whose key is not among `keys`, in order. */
  function Without(args: seq<Text>, keys: set<Text>): seq<Text> {
    if args == [] then []
    else (if Key(args[0]) in keys then [] else [args[0]]) + Without(args[1..], keys)
  }

  function Merge(base: seq<Text>, extra: seq<Text>): seq<Text> {
    Without(base, Keys(extra)) + extra
  }

  /** `merge_node_args`. */
  method MergeNodeArgs(base: seq<Text>, extra: seq<Text>) returns (merged: seq<Text>)
    ensures merged == Merge(base, extra)
  {
    var overridden: seq<Text> := [];
    for i := 0 to |extra|
      invariant forall k :: k in overridden <==> k in Keys(extra[..i])
    {
      overridden := overridden + [Key(extra[i])];
      assert extra[..i + 1] == extra[..i] + [extra[i]];
    }
    assert extra[..|extra|] == extra;
    merged := [];
    for i := 0 to |base|
      invariant merged + Without(base[i..], Keys(extra)) == Without(base, Keys(extra))
    {
      assert base[i..][0] == base[i] && base[i..][1..] == base[i + 1..];
      if Key(base[i]) !in overridden {
        Join(merged, base[i], Without(base[i + 1..], Keys(extra)));
        merged := merged + [base[i]];
      }
    }
    merged := merged + extra;
  }

  lemma Join(a: seq<Text>, x: Text, b: seq<Text>)
    ensures a + ([x] + b) == (a + [x]) + b
  {
  }

  // ---------------------------------------------------------------------------------------------
  // What a merge means

  /** The arguments that set one key, in order. */
  function Setting(args: seq<Text>, key: Text): seq<Text> {
    if args == [] then []
    else (if Key(args[0]) == key then [args[0]] else []) + Setting(args[1..], key)
  }

  lemma {:induction false} SettingSum(a: seq<Text>, b: seq<Text>, key: Text)
    ensures Setting(a + b, key) == Setting(a, key) + Setting(b, key)
  {
    if a == [] {
      assert a + b == b;
    } else {
      assert (a + b)[1..] == a[1..] + b;
      SettingSum(a[1..], b, key);
    }
  }

  lemma {:induction false} SettingWithout(args: seq<Text>, keys: set<Text>, key: Text)
    ensures Setting(Without(args, keys), key) == if key in keys then [] else Setting(args, key)
  {
    if args != [] {
      SettingWithout(args[1..], keys, key);
      SettingSum(if Key(args[0]) in keys then [] else [args[0]], Without(args[1..], keys), key);
    }
  }

  lemma {:induction false} SettingEmpty(args: seq<Text>, key: Text)
    ensures Setting(args, key) != [] <==> key in Keys(args)
  {
    if args != [] {
      SettingEmpty(args[1..], key);
      assert key in Keys(args) <==> key == Key(args[0]) || key in Keys(args[1..]) by {
        assert forall a :: a in args <==> a == args[0] || a in args[1..];
      }
    }
  }

  /** Each key is set just as the composite sets it, or, if the composite does not, just as the chain does:
      no key is set from both sides, and none is lost. */
  lemma MergeMeaning(base: seq<Text>, extra: seq<Text>, key: Text)
    ensures Setting(Merge(base, extra), key) ==
      if key in Keys(extra) then Setting(extra, key) else Setting(base, key)
  {
    SettingSum(Without(base, Keys(extra)), extra, key);
    SettingWithout(base, Keys(extra), key);
    SettingEmpty(extra, key);
  }

  // ---------------------------------------------------------------------------------------------
  // Algebra

  lemma {:induction false} WithoutSum(a: seq<Text>, b: seq<Text>, keys: set<Text>)
    ensures Without(a + b, keys) == Without(a, keys) + Without(b, keys)
  {
    if a == [] {
      assert a + b == b;
    } else {
      assert (a + b)[1..] == a[1..] + b;
      WithoutSum(a[1..], b, keys);
    }
  }

  lemma {:induction false} WithoutTwice(args: seq<Text>, k: set<Text>, l: set<Text>)
    ensures Without(Without(args, k), l) == Without(args, k + l)
  {
    if args != [] {
      WithoutTwice(args[1..], k, l);
      var rest := Without(args[1..], k);
      if Key(args[0]) in k {
        assert Without(args, k) == [] + rest == rest;
      } else {
        assert Without(args, k) == [args[0]] + rest;
        assert ([args[0]] + rest)[1..] == rest;
      }
    }
  }

  lemma {:induction false} WithoutMember(args: seq<Text>, keys: set<Text>, a: Text)
    ensures a in Without(args, keys) <==> a in args && Key(a) !in keys
  {
    if args != [] {
      WithoutMember(args[1..], keys, a);
    }
  }

  lemma MergeKeys(base: seq<Text>, extra: seq<Text>)
    ensures Keys(Merge(base, extra)) == Keys(base) + Keys(extra)
  {
    forall a ensures a in Without(base, Keys(extra)) <==> a in base && Key(a) !in Keys(extra) {
      WithoutMember(base, Keys(extra), a);
    }
    var m := Merge(base, extra);
    assert forall a :: a in m <==> a in Without(base, Keys(extra)) || a in extra;
    forall k | k in Keys(base) + Keys(extra) ensures k in Keys(m) {
      if k in Keys(extra) {
        var a :| a in extra && Key(a) == k;
        assert a in m;
      } else {
        var a :| a in base && Key(a) == k;
        assert a in m;
      }
    }
  }

  lemma {:induction false} WithoutOwnKeys(args: seq<Text>, keys: set<Text>)
    requires Keys(args) <= keys
    ensures Without(args, keys) == []
  {
    if args != [] {
      assert Key(args[0]) in Keys(args);
      assert forall a | a in args[1..] :: a in args;
      WithoutOwnKeys(args[1..], keys);
    }
  }

  /** Merging the same arguments again changes nothing. */
  lemma MergeIdempotent(base: seq<Text>, extra: seq<Text>)
    ensures Merge(Merge(base, extra), extra) == Merge(base, extra)
  {
    var k := Keys(extra);
    WithoutSum(Without(base, k), extra, k);
    WithoutTwice(base, k, k);
    assert k + k == k;
    WithoutOwnKeys(extra, k);
  }

  /** Composites can be merged with each other first, or one after the other into the chain's. */
  lemma MergeAssociative(a: seq<Text>, b: seq<Text>, c: seq<Text>)
    ensures Merge(Merge(a, b), c) == Merge(a, Merge(b, c))
  {
    var kb, kc := Keys(b), Keys(c);
    WithoutSum(Without(a, kb), b, kc);
    WithoutTwice(a, kb, kc);
    MergeKeys(b, c);
    assert Merge(Merge(a, b), c) == Without(a, kb + kc) + Without(b, kc) + c;
    assert Merge(a, Merge(b, c)) == Without(a, kb + kc) + (Without(b, kc) + c);
  }

  // ---------------------------------------------------------------------------------------------
  // Read off the arguments

  /** What an argument sets is named before the first equals sign. */
  lemma KeyIs(key: Text, value: Text)
    requires '=' !in key
    ensures Key(key + "=" + value) == key && Key(key) == key
  {
    var a := key + "=" + value;
    assert a[|key|] == '=' && forall k | 0 <= k < |key| :: a[k] == key[k] && key[k] in key;
    assert IndexOf(a, '=') == |key| && a[..|key|] == key;
  }

  predicate Sets(argument: Text, key: Text) {
    argument == key || key + "=" <= argument
  }

  /** An argument of the chain is kept exactly when no argument of the composite sets the same thing; those of
      the composite are all kept. */
  lemma KeptIff(base: seq<Text>, extra: seq<Text>, argument: Text, key: Text)
    requires '=' !in key && Sets(argument, key)
    ensures argument in Merge(base, extra) <==>
      argument in extra || (argument in base && forall e | e in extra :: !Sets(e, key))
  {
    SetsIff(argument, key);
    WithoutMember(base, Keys(extra), argument);
    forall e ensures Sets(e, key) <==> Key(e) == key {
      SetsIff(e, key);
    }
    hide Key, Sets;
  }

  lemma SetsIff(argument: Text, key: Text)
    requires '=' !in key
    ensures Sets(argument, key) <==> Key(argument) == key
  {
    var i := IndexOf(argument, '=');
    if Sets(argument, key) {
      if argument != key {
        assert argument == key + "=" + argument[|key| + 1..];
        KeyIs(key, argument[|key| + 1..]);
      } else {
        KeyIs(key, "");
      }
    } else if i < |argument| {
      assert argument == argument[..i] + "=" + argument[i + 1..];
    } else {
      assert argument[..i] == argument;
    }
  }
}
