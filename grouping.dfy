/** `groupedOptions`: the options split into buckets by group name, with one
    bucket for the options that have no group. */
module Grouping {
  import opened FilterOptions

  /** The key of the bucket for options without a (non-empty) group. */
  const Ungrouped := "__ungrouped__"

  /** `option.group || '__ungrouped__'`: the group when it is a non-empty
      string, the ungrouped key otherwise; never the empty string. */
  function GroupKey(o: FilterOption): (k: string)
    ensures k != ""
    ensures Truthy(o.group) ==> k == o.group.value
    ensures !Truthy(o.group) ==> k == Ungrouped
  {
    if Truthy(o.group) then o.group.value else Ungrouped
  }

  /** The options of `opts` whose key is `k`, in their order in `opts`. */
  function Bucket(opts: seq<FilterOption>, k: string): (r: seq<FilterOption>)
    ensures |r| <= |opts|
  {
    if opts == [] then []
    else Bucket(opts[..|opts| - 1], k) + (if GroupKey(opts[|opts| - 1]) == k then [opts[|opts| - 1]] else [])
  }

  /** The bucket after one more option. */
  lemma BucketSnoc(opts: seq<FilterOption>, o: FilterOption, k: string)
    ensures Bucket(opts + [o], k) == Bucket(opts, k) + (if GroupKey(o) == k then [o] else [])
  {
  }

  /** A bucket holds the options of its key and nothing else. */
  lemma {:induction false} BucketMembers(opts: seq<FilterOption>, k: string)
    ensures forall j :: 0 <= j < |Bucket(opts, k)| ==>
              GroupKey(Bucket(opts, k)[j]) == k && Bucket(opts, k)[j] in opts
    ensures forall i :: 0 <= i < |opts| && GroupKey(opts[i]) == k ==> opts[i] in Bucket(opts, k)
  {
    if opts != [] {
      var init, o := opts[..|opts| - 1], opts[|opts| - 1];
      assert opts == init + [o];
      BucketMembers(init, k);
      BucketSnoc(init, o, k);
    }
  }

  /** The keys that occur among the options. */
  function Keys(opts: seq<FilterOption>): set<string>
  {
    set i | 0 <= i < |opts| :: GroupKey(opts[i])
  }

  /** The keys after one more option. */
  lemma KeysSnoc(opts: seq<FilterOption>, o: FilterOption)
    ensures Keys(opts + [o]) == Keys(opts) + {GroupKey(o)}
  {
    var s := opts + [o];
    forall x | x in Keys(opts) ensures x in Keys(s) {
      var i :| 0 <= i < |opts| && GroupKey(opts[i]) == x;
      assert s[i] == opts[i];
    }
    assert GroupKey(s[|opts|]) == GroupKey(o);
    forall x | x in Keys(s) ensures x in Keys(opts) + {GroupKey(o)} {
      var i :| 0 <= i < |s| && GroupKey(s[i]) == x;
      if i < |opts| { assert s[i] == opts[i]; }
    }
  }

  /** A key no option has gets an empty bucket. */
  lemma {:induction false} BucketOfAbsentKey(opts: seq<FilterOption>, k: string)
    requires k !in Keys(opts)
    ensures Bucket(opts, k) == []
  {
    if opts != [] {
      var init, o := opts[..|opts| - 1], opts[|opts| - 1];
      assert opts == init + [o];
      KeysSnoc(init, o);
      BucketOfAbsentKey(init, k);
    }
  }

  /** The grouping: one bucket for each key that occurs. */
  function Grouped(opts: seq<FilterOption>): map<string, seq<FilterOption>>
  {
    map k | k in Keys(opts) :: Bucket(opts, k)
  }

  /** One more option extends its own bucket, creating it if needed, and leaves
      every other bucket as it was: the step of the loop in `groupedOptions`. */
  lemma GroupedSnoc(opts: seq<FilterOption>, o: FilterOption)
    ensures var g, k := Grouped(opts), GroupKey(o);
            Grouped(opts + [o]) == g[k := (if k in g then g[k] else []) + [o]]
  {
    var g, k := Grouped(opts), GroupKey(o);
    var g' := g[k := (if k in g then g[k] else []) + [o]];
    KeysSnoc(opts, o);
    if k !in g {
      BucketOfAbsentKey(opts, k);
    }
    forall x | x in Keys(opts + [o]) ensures Grouped(opts + [o])[x] == g'[x] {
      BucketSnoc(opts, o, x);
    }
  }

  /** A bucket of a concatenation is the concatenation of the buckets. */
  lemma {:induction false} BucketConcat(xs: seq<FilterOption>, ys: seq<FilterOption>, k: string)
    ensures Bucket(xs + ys, k) == Bucket(xs, k) + Bucket(ys, k)
  {
    if ys == [] {
      assert xs + ys == xs;
    } else {
      var init := ys[..|ys| - 1];
      assert (xs + ys)[..|xs + ys| - 1] == xs + init;
      BucketConcat(xs, init, k);
    }
  }

  /** Every option lands in the bucket of its own key and in no other one. */
  lemma GroupedPartition(opts: seq<FilterOption>, i: nat)
    requires i < |opts|
    ensures GroupKey(opts[i]) in Grouped(opts)
    ensures opts[i] in Grouped(opts)[GroupKey(opts[i])]
    ensures forall k :: k in Grouped(opts) && k != GroupKey(opts[i]) ==> opts[i] !in Grouped(opts)[k]
  {
    assert GroupKey(opts[i]) in Keys(opts);
    forall k | k in Keys(opts) ensures opts[i] in Bucket(opts, k) <==> k == GroupKey(opts[i]) {
      BucketMembers(opts, k);
    }
  }

  /** Every bucket holds only options of the list, all with the bucket's key. */
  lemma GroupedBuckets(opts: seq<FilterOption>)
    ensures forall k :: k in Grouped(opts) ==> Grouped(opts)[k] != []
    ensures forall k, j :: k in Grouped(opts) && 0 <= j < |Grouped(opts)[k]| ==>
              GroupKey(Grouped(opts)[k][j]) == k && Grouped(opts)[k][j] in opts
  {
    forall k | k in Keys(opts) ensures Grouped(opts)[k] != [] {
      BucketMembers(opts, k);
      var i :| 0 <= i < |opts| && GroupKey(opts[i]) == k;
      assert opts[i] in Bucket(opts, k);
    }
    forall k | k in Keys(opts) {
      BucketMembers(opts, k);
    }
  }

  /** Order within a bucket: the option at index i sits at position
      `|Bucket(opts[..i], k)|` of its bucket, and that position grows with i,
      so options of one group keep their relative order. */
  lemma BucketPosition(opts: seq<FilterOption>, i: nat)
    requires i < |opts|
    ensures var k := GroupKey(opts[i]);
            |Bucket(opts[..i], k)| < |Bucket(opts, k)| &&
            Bucket(opts, k)[|Bucket(opts[..i], k)|] == opts[i]
  {
    var k := GroupKey(opts[i]);
    calc {
      Bucket(opts, k);
      { assert opts == opts[..i] + opts[i..]; }
      Bucket(opts[..i] + opts[i..], k);
      { BucketConcat(opts[..i], opts[i..], k); }
      Bucket(opts[..i], k) + Bucket(opts[i..], k);
      { assert opts[i..] == [opts[i]] + opts[i + 1..];
        BucketConcat([opts[i]], opts[i + 1..], k);
        BucketSnoc([], opts[i], k); assert [] + [opts[i]] == [opts[i]]; }
      Bucket(opts[..i], k) + ([opts[i]] + Bucket(opts[i + 1..], k));
    }
  }

  lemma BucketPositionMonotone(opts: seq<FilterOption>, i: nat, j: nat)
    requires i < j <= |opts|
    ensures var k := GroupKey(opts[i]);
            |Bucket(opts[..i], k)| < |Bucket(opts[..j], k)|
  {
    var k := GroupKey(opts[i]);
    calc {
      Bucket(opts[..j], k);
      { assert opts[..j] == opts[..i] + opts[i..j]; }
      Bucket(opts[..i] + opts[i..j], k);
      { BucketConcat(opts[..i], opts[i..j], k); }
      Bucket(opts[..i], k) + Bucket(opts[i..j], k);
      { assert opts[i..j] == [opts[i]] + opts[i + 1..j];
        BucketConcat([opts[i]], opts[i + 1..j], k);
        BucketSnoc([], opts[i], k); assert [] + [opts[i]] == [opts[i]]; }
      Bucket(opts[..i], k) + ([opts[i]] + Bucket(opts[i + 1..j], k));
    }
  }

  // ---- sizes ----

  /** The keys in the order of their first occurrence. */
  function KeyOrder(opts: seq<FilterOption>): (ks: seq<string>)
    ensures forall a, b :: 0 <= a < b < |ks| ==> ks[a] != ks[b]
    ensures forall a :: 0 <= a < |ks| ==> ks[a] in Keys(opts)
    ensures forall k :: k in Keys(opts) ==> k in ks
  {
    if opts == [] then []
    else
      var init := opts[..|opts| - 1];
      var k := GroupKey(opts[|opts| - 1]);
      var ks := KeyOrder(init);
      assert Keys(opts) == Keys(init) + {k} by {
        assert opts == init + [opts[|opts| - 1]];
        KeysSnoc(init, opts[|opts| - 1]);
      }
      if k in ks then ks else ks + [k]
  }

  /** The sum of the sizes of the buckets `ks` names. */
  function SizeSum(g: map<string, seq<FilterOption>>, ks: seq<string>): nat
  {
    if ks == [] then 0
    else SizeSum(g, ks[..|ks| - 1]) + (if ks[|ks| - 1] in g then |g[ks[|ks| - 1]]| else 0)
  }

  /** Two groupings that agree on the keys of `ks` give the same sum. */
  lemma {:induction false} SizeSumAgree(g1: map<string, seq<FilterOption>>, g2: map<string, seq<FilterOption>>,
                                        ks: seq<string>)
    requires forall a :: 0 <= a < |ks| ==> (ks[a] in g1 <==> ks[a] in g2)
    requires forall a :: 0 <= a < |ks| && ks[a] in g1 ==> g1[ks[a]] == g2[ks[a]]
    ensures SizeSum(g1, ks) == SizeSum(g2, ks)
  {
    if ks != [] {
      SizeSumAgree(g1, g2, ks[..|ks| - 1]);
    }
  }

  /** Growing the one bucket `k` that `ks` names once by one option grows the
      sum by one. */
  lemma {:induction false} SizeSumBump(g1: map<string, seq<FilterOption>>, g2: map<string, seq<FilterOption>>,
                                       ks: seq<string>, k: string)
    requires forall a, b :: 0 <= a < b < |ks| ==> ks[a] != ks[b]
    requires k in ks && k in g1 && k in g2 && |g2[k]| == |g1[k]| + 1
    requires forall a :: 0 <= a < |ks| && ks[a] != k ==> (ks[a] in g1 <==> ks[a] in g2)
    requires forall a :: 0 <= a < |ks| && ks[a] != k && ks[a] in g1 ==> g1[ks[a]] == g2[ks[a]]
    ensures SizeSum(g2, ks) == SizeSum(g1, ks) + 1
  {
    var init := ks[..|ks| - 1];
    if ks[|ks| - 1] == k {
      assert k !in init;
      SizeSumAgree(g1, g2, init);
    } else {
      SizeSumBump(g1, g2, init, k);
    }
  }

  /** A new key at the end of `ks`, with a bucket of one option, grows the
      size sum by one. */
  lemma SizeSumNewKey(g: map<string, seq<FilterOption>>, ks: seq<string>, k: string, o: FilterOption)
    requires k !in ks
    ensures SizeSum(g[k := [o]], ks + [k]) == SizeSum(g, ks) + 1
  {
    assert (ks + [k])[..|ks|] == ks;
    SizeSumAgree(g, g[k := [o]], ks);
  }

  /** One loop step of `groupedOptions` grows the size sum by one, whether it
      extends an existing bucket or creates a new one at the end of `ks`. */
  lemma SizeSumStep(g: map<string, seq<FilterOption>>, ks: seq<string>, k: string, o: FilterOption)
    requires forall a, b :: 0 <= a < b < |ks| ==> ks[a] != ks[b]
    requires forall a :: 0 <= a < |ks| ==> ks[a] in g
    requires k in g ==> k in ks
    ensures SizeSum(g[k := (if k in g then g[k] else []) + [o]], if k in ks then ks else ks + [k])
         == SizeSum(g, ks) + 1
  {
    if k in ks {
      SizeSumBump(g, g[k := g[k] + [o]], ks, k);
    } else {
      assert [] + [o] == [o];
      SizeSumNewKey(g, ks, k, o);
    }
  }

  /** The key order after one more option. */
  lemma KeyOrderSnoc(opts: seq<FilterOption>, o: FilterOption)
    ensures var ks, k := KeyOrder(opts), GroupKey(o);
            KeyOrder(opts + [o]) == if k in ks then ks else ks + [k]
  {
  }

  /** One more option adds one to the size sum of the grouping. */
  lemma GroupedSizesSnoc(opts: seq<FilterOption>, o: FilterOption)
    ensures SizeSum(Grouped(opts + [o]), KeyOrder(opts + [o])) == SizeSum(Grouped(opts), KeyOrder(opts)) + 1
  {
    var g, ks, k := Grouped(opts), KeyOrder(opts), GroupKey(o);
    GroupedSnoc(opts, o);
    KeyOrderSnoc(opts, o);
    assert forall a :: 0 <= a < |ks| ==> ks[a] in g;
    SizeSumStep(g, ks, k, o);
  }

  /** The bucket sizes add up to the number of options. */
  lemma {:induction false} GroupedSizes(opts: seq<FilterOption>)
    ensures SizeSum(Grouped(opts), KeyOrder(opts)) == |opts|
  {
    if opts != [] {
      var init, o := opts[..|opts| - 1], opts[|opts| - 1];
      assert opts == init + [o];
      GroupedSizes(init);
      GroupedSizesSnoc(init, o);
    }
  }

  // ---- the dictionary as the source builds it ----

  /** The members every plain JavaScript object inherits from
      `Object.prototype`. Looking one of them up on `{}` yields a truthy value
      that is not an array. */
  const InheritedKeys: set<string> := {
    "constructor", "__proto__", "__defineGetter__", "__defineSetter__",
    "__lookupGetter__", "__lookupSetter__", "hasOwnProperty", "isPrototypeOf",
    "propertyIsEnumerable", "toLocaleString", "toString", "valueOf"
  }

  /** The loop of `groupedOptions` over a `{}` dictionary: a key that is not
      yet an own property but names an inherited member passes the
      `!groups[groupKey]` test as present, so no array is created and the
      `push` throws a TypeError (`None`). */
  function GroupedAsWritten(opts: seq<FilterOption>): Option<map<string, seq<FilterOption>>>
  {
    if opts == [] then Some(map[])
    else
      match GroupedAsWritten(opts[..|opts| - 1])
      case None => None
      case Some(g) =>
        var o := opts[|opts| - 1];
        var k := GroupKey(o);
        if k in g then Some(g[k := g[k] + [o]])
        else if k in InheritedKeys then None
        else Some(g[k := [o]])
  }

  /** The code as written throws exactly when some option's key names an
      inherited member, and otherwise builds the intended grouping. */
  lemma {:induction false} GroupedAsWrittenThrows(opts: seq<FilterOption>)
    ensures GroupedAsWritten(opts).None? <==>
              exists i :: 0 <= i < |opts| && GroupKey(opts[i]) in InheritedKeys
    ensures GroupedAsWritten(opts).Some? ==> GroupedAsWritten(opts).value == Grouped(opts)
  {
    if opts != [] {
      var init, o := opts[..|opts| - 1], opts[|opts| - 1];
      assert opts == init + [o];
      GroupedAsWrittenThrows(init);
      GroupedSnoc(init, o);
      var k := GroupKey(o);
      assert forall i :: 0 <= i < |init| ==> opts[i] == init[i];
      assert (exists i :: 0 <= i < |opts| && GroupKey(opts[i]) in InheritedKeys) <==>
             (exists i :: 0 <= i < |init| && GroupKey(init[i]) in InheritedKeys) || k in InheritedKeys;
      if GroupedAsWritten(init).Some? {
        var g := GroupedAsWritten(init).value;
        assert g == Grouped(init);
        if k in g {
          assert k in Keys(init);
          var i :| 0 <= i < |init| && GroupKey(init[i]) == k;
          assert k !in InheritedKeys;
          assert GroupedAsWritten(opts) == Some(g[k := g[k] + [o]]);
        } else if k !in InheritedKeys {
          assert [] + [o] == [o];
          assert GroupedAsWritten(opts) == Some(g[k := [o]]);
        }
      }
    } else {
      assert Grouped(opts) == map[];
    }
  }

  /** One option in a group named "constructor": the code as written throws,
      while the intended grouping has the bucket "constructor" holding it. */
  lemma ConstructorGroupThrows(o: FilterOption)
    requires o.group == Some("constructor")
    ensures GroupedAsWritten([o]) == None
    ensures Grouped([o]) == map["constructor" := [o]]
  {
    GroupedSnoc([], o);
    assert [] + [o] == [o];
    assert Grouped([]) == map[];
  }
}
