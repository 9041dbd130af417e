/** Key configurations and their collections, section 3 of RFC 9458. */
module KeyConfigs {
  import opened Wrappers
  import opened Varint

  const PUBLIC_KEY_BYTES := 65
  const CONFIG_BYTES := 74
  const MAX_CONFIGS := 4

  datatype KeyConfig = KeyConfig(keyId: nat, kemId: nat, kdfId: nat, aeadId: nat, publicKey: Bytes)

  // ---------------------------------------------------------------------------------------------
  // One configuration.

  /** Sixteen bits, most significant byte first; larger numbers lose their upper bits. */
  function U16(x: nat): Bytes {
    [x / 0x100 % 0x100, x % 0x100]
  }

  function U16At(b: Bytes, i: nat): nat
    requires i + 2 <= |b|
  {
    (b[i] as nat) * 0x100 + b[i + 1]
  }

  function EncodeConfig(c: KeyConfig): (r: Option<Bytes>)
    ensures r.Some? ==> |r.value| == CONFIG_BYTES
  {
    if |c.publicKey| != PUBLIC_KEY_BYTES then None
    else Some([c.keyId % 0x100] + U16(c.kemId) + c.publicKey + U16(4) + U16(c.kdfId) + U16(c.aeadId))
  }

  function DecodeConfig(b: Bytes): Option<KeyConfig> {
    if |b| < CONFIG_BYTES then None
    else if U16At(b, 68) < 4 then None
    else Some(KeyConfig(b[0], U16At(b, 1), U16At(b, 70), U16At(b, 72), b[3..68]))
  }

  /** All fields fit their places. */
  predicate Fits(c: KeyConfig) {
    c.keyId < 0x100 && c.kemId < 0x1_0000 && c.kdfId < 0x1_0000 && c.aeadId < 0x1_0000
  }

  function Cut(c: KeyConfig): KeyConfig {
    KeyConfig(c.keyId % 0x100, c.kemId % 0x1_0000, c.kdfId % 0x1_0000, c.aeadId % 0x1_0000, c.publicKey)
  }

  lemma CutIff(c: KeyConfig)
    ensures Cut(c) == c <==> Fits(c)
  {
  }

  lemma U16RoundTrip(x: nat)
    ensures x / 0x100 % 0x100 * 0x100 + x % 0x100 == x % 0x1_0000
  {
    var q, h := x / 0x1_0000, x / 0x100;
    assert h == q * 0x100 + h % 0x100;
    assert x == h * 0x100 + x % 0x100;
    assert x == q * 0x1_0000 + (h % 0x100 * 0x100 + x % 0x100);
  }

  /** A written configuration reads back with every field cut to its width. */
  lemma ConfigRoundTrip(c: KeyConfig)
    requires EncodeConfig(c).Some?
    ensures DecodeConfig(EncodeConfig(c).value) == Some(Cut(c))
  {
    var b := EncodeConfig(c).value;
    U16RoundTrip(c.kemId);
    U16RoundTrip(c.kdfId);
    U16RoundTrip(c.aeadId);
    assert b[3..68] == c.publicKey;
  }

  // ---------------------------------------------------------------------------------------------
  // A collection.

  predicate DistinctIds(configs: seq<KeyConfig>) {
    forall i, j | 0 <= i < j < |configs| :: configs[i].keyId != configs[j].keyId
  }

  /** Each configuration with its length in front. */
  function Concatenated(configs: seq<KeyConfig>): Option<Bytes> {
    if configs == [] then Some([])
    else
      var c :- EncodeConfig(configs[0]);
      var rest :- Concatenated(configs[1..]);
      Some(U16(|c|) + c + rest)
  }

  function CollectionOf(configs: seq<KeyConfig>): Option<Bytes> {
    if configs == [] || |configs| > MAX_CONFIGS || !DistinctIds(configs) then None else Concatenated(configs)
  }

  method EncodeCollection(configs: seq<KeyConfig>) returns (r: Option<Bytes>)
    ensures r == CollectionOf(configs)
  {
    hide EncodeConfig, U16;
    if configs == [] || |configs| > MAX_CONFIGS {
      return None;
    }
    var ids: set<nat> := {};
    var out: Bytes := [];
    var i := 0;
    assert configs[0..] == configs;
    BeforeNothing(Concatenated(configs));
    while i < |configs|
      invariant 0 <= i <= |configs|
      invariant ids == set k | 0 <= k < i :: configs[k].keyId
      invariant forall k, l | 0 <= k < l < i :: configs[k].keyId != configs[l].keyId
      invariant Concatenated(configs) == Before(out, Concatenated(configs[i..]))
    {
      var c := configs[i];
      if c.keyId in ids {
        return None;
      }
      ids := ids + {c.keyId};
      var bytes := EncodeConfig(c);
      assert configs[i..][0] == c && configs[i..][1..] == configs[i + 1..];
      if bytes == None {
        return None;
      }
      BeforeMore(out, U16(|bytes.value|) + bytes.value, Concatenated(configs[i + 1..]));
      out := out + (U16(|bytes.value|) + bytes.value);
      i := i + 1;
    }
    assert out + [] == out;
    return Some(out);
  }

  /** Configurations to the end of the buffer; got have been read already. */
  function TakeConfigs(s: Bytes, got: nat): Option<seq<KeyConfig>>
    decreases |s|
  {
    if s == [] then Some([])
    else if |s| < 2 then None
    else
      var n := U16At(s, 0);
      if n < 3 || 2 + n > |s| then None
      else
        var c :- DecodeConfig(s[2..2 + n]);
        if got + 1 > MAX_CONFIGS then None
        else
          var rest :- TakeConfigs(s[2 + n..], got + 1);
          Some([c] + rest)
  }

  lemma TakeOne(s: Bytes, got: nat, c: KeyConfig, n: nat)
    requires |s| >= 2 && U16At(s, 0) == n && 3 <= n && 2 + n <= |s| && DecodeConfig(s[2..2 + n]) == Some(c) && got < MAX_CONFIGS
    ensures TakeConfigs(s, got) == Before([c], TakeConfigs(s[2 + n..], got + 1))
  {
    hide DecodeConfig, U16At;
  }

  function ParseCollection(s: Bytes): Option<seq<KeyConfig>> {
    if |s| < 2 then None else TakeConfigs(s, 0)
  }

  method DecodeCollection(bytes: Bytes) returns (r: Option<seq<KeyConfig>>)
    ensures r == ParseCollection(bytes)
  {
    hide DecodeConfig, Before, U16At;
    if |bytes| < 2 {
      return None;
    }
    var configs: seq<KeyConfig> := [];
    var offset := 0;
    assert bytes[0..] == bytes;
    BeforeNothing(TakeConfigs(bytes, 0));
    while offset < |bytes|
      invariant 0 <= offset <= |bytes| && |configs| <= MAX_CONFIGS
      invariant offset > 0 ==> configs != []
      invariant TakeConfigs(bytes, 0) == Before(configs, TakeConfigs(bytes[offset..], |configs|))
    {
      ghost var s, before := bytes[offset..], configs;
      BeforeNone(before);
      if offset + 2 > |bytes| {
        return None;
      }
      var n := U16At(bytes, offset);
      U16Within(bytes, offset);
      offset := offset + 2;
      if n < 3 || offset + n > |bytes| {
        return None;
      }
      assert bytes[offset..offset + n] == s[2..2 + n] && bytes[offset + n..] == s[2 + n..];
      var c :- DecodeConfig(bytes[offset..offset + n]);
      configs := configs + [c];
      offset := offset + n;
      if |configs| > MAX_CONFIGS {
        return None;
      }
      TakeOne(s, |before|, c, n);
      BeforeMore(before, [c], TakeConfigs(bytes[offset..], |configs|));
    }
    assert bytes[offset..] == [];
    BeforeEnd(configs);
    return Some(configs);
  }

  lemma U16Within(b: Bytes, i: nat)
    requires i + 2 <= |b|
    ensures U16At(b[i..], 0) == U16At(b, i)
  {
  }

  // ---------------------------------------------------------------------------------------------
  // Round trip.

  function CutAll(configs: seq<KeyConfig>): (out: seq<KeyConfig>)
    ensures |out| == |configs|
  {
    seq(|configs|, i requires 0 <= i < |configs| => Cut(configs[i]))
  }

  lemma {:induction false} ConfigsRoundTrip(configs: seq<KeyConfig>, got: nat)
    requires Concatenated(configs).Some? && got + |configs| <= MAX_CONFIGS
    ensures TakeConfigs(Concatenated(configs).value, got) == Some(CutAll(configs))
    decreases |configs|
  {
    hide EncodeConfig, DecodeConfig, Cut;
    if configs != [] {
      var c, rest := EncodeConfig(configs[0]).value, Concatenated(configs[1..]).value;
      var s := U16(|c|) + c + rest;
      assert s[2..2 + |c|] == c && s[2 + |c|..] == rest;
      assert |c| == CONFIG_BYTES && U16At(s, 0) == CONFIG_BYTES;
      ConfigRoundTrip(configs[0]);
      ConfigsRoundTrip(configs[1..], got + 1);
      assert CutAll(configs) == [Cut(configs[0])] + CutAll(configs[1..]);
    }
  }

  lemma {:induction false} WritableIff(configs: seq<KeyConfig>)
    ensures Concatenated(configs).Some? <==> forall i | 0 <= i < |configs| :: |configs[i].publicKey| == PUBLIC_KEY_BYTES
    decreases |configs|
  {
    if configs != [] {
      WritableIff(configs[1..]);
      assert configs == [configs[0]] + configs[1..];
      assert forall i | 0 <= i < |configs[1..]| :: configs[1..][i] == configs[i + 1];
      assert forall i | 0 < i < |configs| :: configs[i] == configs[1..][i - 1];
    }
  }

  /** A collection is written exactly when it holds one to four configurations with distinct ids and
  keys of the right length, and then reads back unchanged exactly when all its numbers fit. */
  lemma CollectionRoundTrip(configs: seq<KeyConfig>)
    ensures CollectionOf(configs).Some? <==>
              1 <= |configs| <= 4 && DistinctIds(configs)
              && forall i | 0 <= i < |configs| :: |configs[i].publicKey| == 65
    ensures CollectionOf(configs).Some? ==>
              (ParseCollection(CollectionOf(configs).value) == Some(configs) <==> forall i | 0 <= i < |configs| :: Fits(configs[i]))
  {
    hide EncodeConfig, Cut, Fits, TakeConfigs;
    WritableIff(configs);
    if CollectionOf(configs).Some? {
      ConfigsRoundTrip(configs, 0);
      forall i | 0 <= i < |configs|
        ensures CutAll(configs)[i] == configs[i] <==> Fits(configs[i])
      {
        CutIff(configs[i]);
      }
      assert CutAll(configs) == configs <==> forall i | 0 <= i < |configs| :: CutAll(configs)[i] == configs[i];
      LongEnough(configs);
    }
  }

  lemma LongEnough(configs: seq<KeyConfig>)
    requires configs != [] && Concatenated(configs).Some?
    ensures |Concatenated(configs).value| >= 2
  {
  }

  // ---------------------------------------------------------------------------------------------
  // Choosing the key to use.

  /** The configuration with the highest id, the first of them if there are several. */
  function Best(configs: seq<KeyConfig>): KeyConfig
    requires configs != []
  {
    if |configs| == 1 then configs[0]
    else
      var best, item := Best(configs[..|configs| - 1]), configs[|configs| - 1];
      if item.keyId > best.keyId then item else best
  }

  method Select(configs: seq<KeyConfig>) returns (r: Option<KeyConfig>)
    ensures r == if configs == [] then None else Some(Best(configs))
  {
    if configs == [] {
      return None;
    }
    var best := configs[0];
    for i := 1 to |configs|
      invariant best == Best(configs[..i])
    {
      assert configs[..i + 1][..i] == configs[..i];
      if configs[i].keyId > best.keyId {
        best := configs[i];
      }
    }
    assert configs[..|configs|] == configs;
    return Some(best);
  }

  ghost predicate Highest(configs: seq<KeyConfig>, c: KeyConfig) {
    c in configs && forall x | x in configs :: x.keyId <= c.keyId
  }

  lemma {:induction false} BestIsHighest(configs: seq<KeyConfig>)
    requires configs != []
    ensures Highest(configs, Best(configs))
    decreases |configs|
  {
    if |configs| > 1 {
      var init := configs[..|configs| - 1];
      BestIsHighest(init);
      assert configs == init + [configs[|configs| - 1]];
    }
  }

  lemma {:induction false} FirstHighestIsBest(configs: seq<KeyConfig>)
    requires configs != [] && Highest(configs, configs[0])
    ensures Best(configs) == configs[0]
    decreases |configs|
  {
    if |configs| > 1 {
      var init := configs[..|configs| - 1];
      assert forall x | x in init :: x in configs;
      FirstHighestIsBest(init);
      assert configs[|configs| - 1] in configs;
    }
  }

  ghost predicate Permutation(a: seq<KeyConfig>, b: seq<KeyConfig>) {
    multiset(a) == multiset(b)
  }

  lemma SameMembers(a: seq<KeyConfig>, b: seq<KeyConfig>)
    requires Permutation(a, b)
    ensures |a| == |b| && forall x :: x in a <==> x in b
  {
    assert |multiset(a)| == |multiset(b)|;
    forall x
      ensures x in a <==> x in b
    {
      assert x in a <==> x in multiset(a);
      assert x in b <==> x in multiset(b);
    }
  }

  /** The choice does not depend on the order exactly when only one configuration has the highest id. */
  lemma ChoiceIgnoresOrder(configs: seq<KeyConfig>)
    requires configs != []
    ensures (forall b | Permutation(configs, b) :: b != [] && Best(b) == Best(configs))
            <==> (forall x, y | Highest(configs, x) && Highest(configs, y) :: x == y)
  {
    hide Best;
    if forall x, y | Highest(configs, x) && Highest(configs, y) :: x == y {
      forall b | Permutation(configs, b)
        ensures b != [] && Best(b) == Best(configs)
      {
        SameMembers(configs, b);
        BestIsHighest(configs);
        BestIsHighest(b);
        assert Highest(configs, Best(b));
      }
    } else {
      var x, y :| Highest(configs, x) && Highest(configs, y) && x != y;
      var a := MovedFirst(configs, x);
      var b := MovedFirst(configs, y);
    }
  }

  /** Some order has a given highest configuration first, so that it is chosen. */
  lemma MovedFirst(configs: seq<KeyConfig>, x: KeyConfig) returns (b: seq<KeyConfig>)
    requires Highest(configs, x)
    ensures Permutation(configs, b) && b != [] && Best(b) == x
  {
    hide Best;
    var i :| 0 <= i < |configs| && configs[i] == x;
    b := [x] + configs[..i] + configs[i + 1..];
    assert configs == configs[..i] + [x] + configs[i + 1..];
    SameMembers(configs, b);
    FirstHighestIsBest(b);
  }

  /** Distinct ids are enough. */
  lemma DistinctIdsChooseOne(configs: seq<KeyConfig>, b: seq<KeyConfig>)
    requires configs != [] && DistinctIds(configs) && Permutation(configs, b)
    ensures b != [] && Best(b) == Best(configs)
  {
    hide Best;
    forall x, y | Highest(configs, x) && Highest(configs, y)
      ensures x == y
    {
      var i :| 0 <= i < |configs| && configs[i] == x;
      var j :| 0 <= j < |configs| && configs[j] == y;
    }
    ChoiceIgnoresOrder(configs);
  }

  /** The decoder does not insist on distinct ids: two configurations that share one are read back, and
  which of them is chosen is then a matter of their order. */
  lemma DecoderKeepsRepeatedIds(a: KeyConfig, b: KeyConfig)
    requires |a.publicKey| == PUBLIC_KEY_BYTES && |b.publicKey| == PUBLIC_KEY_BYTES && Fits(a) && Fits(b) && a.keyId == b.keyId
    ensures Concatenated([a, b]).Some? && ParseCollection(Concatenated([a, b]).value) == Some([a, b])
    ensures Concatenated([b, a]).Some? && ParseCollection(Concatenated([b, a]).value) == Some([b, a])
    ensures Best([a, b]) == a && Best([b, a]) == b
  {
    hide EncodeConfig, TakeConfigs;
    PairRoundTrip(a, b);
    PairRoundTrip(b, a);
    assert [a, b][..1] == [a] && [b, a][..1] == [b];
  }

  lemma PairRoundTrip(a: KeyConfig, b: KeyConfig)
    requires |a.publicKey| == PUBLIC_KEY_BYTES && |b.publicKey| == PUBLIC_KEY_BYTES && Fits(a) && Fits(b)
    ensures Concatenated([a, b]).Some? && ParseCollection(Concatenated([a, b]).value) == Some([a, b])
  {
    hide EncodeConfig, TakeConfigs, Cut, Fits, Concatenated;
    WritableIff([a, b]);
    ConfigsRoundTrip([a, b], 0);
    LongEnough([a, b]);
    CutIff(a);
    CutIff(b);
    assert CutAll([a, b]) == [a, b];
  }

  /** There are such configurations. */
  lemma OrderCanMatter() returns (a: KeyConfig, b: KeyConfig)
    ensures Concatenated([a, b]).Some? && ParseCollection(Concatenated([a, b]).value) == Some([a, b])
    ensures Best([a, b]) != Best([b, a])
  {
    hide Concatenated, ParseCollection, Best;
    var key: Bytes := seq(PUBLIC_KEY_BYTES, _ => 0);
    a, b := KeyConfig(1, 16, 1, 2, key), KeyConfig(1, 16, 1, 1, key);
    DecoderKeepsRepeatedIds(a, b);
  }
}
