/**
 How a server picks a cipher: either side's list may rank the ciphers, and the server's may rank whole
 groups of them as equal, within which the client's order decides.
 */
module CipherChoice {
  import opened Wrappers
  import opened Bytes

  /** `mkey` and `auth` are the bits of its key exchange and its authentication. */
  datatype Cipher = Cipher(id: u16, minVersion: u16, maxVersion: u16, mkey: nat, auth: nat)

  predicate Usable(c: Cipher, version: u16, keyExchanges: set<nat>, authentications: set<nat>)
  {
    c.minVersion <= version <= c.maxVersion && c.mkey in keyExchanges && c.auth in authentications
  }

  /** First occurrence. */
  function IndexOf(list: seq<Cipher>, c: Cipher): (r: Option<nat>)
    ensures r.Some? ==> r.value < |list| && list[r.value] == c && c !in list[..r.value]
    ensures r.None? ==> c !in list
  {
    if list == [] then None
    else if list[0] == c then Some(0)
    else match IndexOf(list[1..], c)
      case Some(i) => assert list[..i + 1] == [list[0]] + list[1..][..i]; Some(i + 1)
      case None => None
  }

  /** The client's list as sent: two bytes each, those nobody knows left out. */
  function Known(suites: bytes, table: map<u16, Cipher>): Option<seq<Cipher>>
  {
    if suites == [] then Some([])
    else if |suites| == 1 then None
    else match Known(suites[2..], table)
      case None => None
      case Some(rest) =>
        var id := DecodeU16(suites[..2]);
        Some(if id in table then [table[id]] + rest else rest)
  }

  lemma {:induction false} KnownAppend(a: bytes, b: bytes, table: map<u16, Cipher>)
    requires |a| % 2 == 0
    ensures Known(a, table).Some?
    ensures Known(a + b, table) ==
            match Known(b, table) case None => None case Some(rest) => Some(Known(a, table).value + rest)
  {
    if a == [] {
      assert a + b == b;
      if Known(b, table).Some? { assert [] + Known(b, table).value == Known(b, table).value; }
    } else {
      KnownAppend(a[2..], b, table);
      assert (a + b)[2..] == a[2..] + b && (a + b)[..2] == a[..2];
      var id := DecodeU16(a[..2]);
      if Known(b, table).Some? && id in table {
        assert [table[id]] + (Known(a[2..], table).value + Known(b, table).value)
            == [table[id]] + Known(a[2..], table).value + Known(b, table).value;
      }
    }
  }

  lemma KnownOne(pair: bytes, table: map<u16, Cipher>)
    requires |pair| == 2
    ensures Known(pair, table) == Some(if DecodeU16(pair) in table then [table[DecodeU16(pair)]] else [])
  {
    assert pair[2..] == [] && pair[..2] == pair;
    assert Known(pair[2..], table) == Some([]);
    if DecodeU16(pair) in table {
      assert [table[DecodeU16(pair)]] + [] == [table[DecodeU16(pair)]];
    }
  }

  /** Every two bytes give the cipher they stand for, high byte first, or nothing; a byte left over is an error. */
  lemma KnownInOrder(suites: bytes, table: map<u16, Cipher>, k: nat)
    ensures Known(suites, table).None? <==> |suites| % 2 == 1
    ensures 2 * k + 1 < |suites| ==>
      var id := 0x100 * suites[2 * k] as int + suites[2 * k + 1];
      && Known(suites[..2 * k], table).Some? && Known(suites[..2 * k + 2], table).Some?
      && Known(suites[..2 * k + 2], table).value ==
           Known(suites[..2 * k], table).value + if id in table then [table[id]] else []
  {
    KnownIfEven(suites, table);
    if 2 * k + 1 < |suites| {
      var pair := suites[2 * k..2 * k + 2];
      KnownAppend(suites[..2 * k], pair, table);
      KnownOne(pair, table);
      assert suites[..2 * k + 2] == suites[..2 * k] + pair;
    }
  }

  lemma {:induction false} KnownIfEven(suites: bytes, table: map<u16, Cipher>)
    ensures Known(suites, table).None? <==> |suites| % 2 == 1
  {
    if |suites| >= 2 {
      KnownIfEven(suites[2..], table);
    }
  }

  method ParseClientCiphers(suites: bytes, table: map<u16, Cipher>) returns (list: Option<seq<Cipher>>)
    ensures list == Known(suites, table)
  {
    var ciphers: seq<Cipher> := [];
    var i := 0;
    while i < |suites|
      invariant 0 <= i <= |suites| && i % 2 == 0
      invariant Known(suites[..i], table) == Some(ciphers)
    {
      KnownAppend(suites[..i], suites[i..], table);
      assert suites == suites[..i] + suites[i..];
      if |suites| - i == 1 {
        return None;
      }
      var id := DecodeU16(suites[i..i + 2]);
      KnownAppend(suites[..i], suites[i..i + 2], table);
      assert suites[..i + 2] == suites[..i] + suites[i..i + 2];
      KnownOne(suites[i..i + 2], table);
      assert ciphers + [] == ciphers;
      if id in table {
        ciphers := ciphers + [table[id]];
      }
      i := i + 2;
    }
    assert suites[..i] == suites;
    return Some(ciphers);
  }

  // ---------------------------------------------------------------------------------------

  /** What the choice is made from; `flags` says of each cipher of `prio` whether its group goes on after it. */
  datatype Choice = Choice(prio: seq<Cipher>, flags: Option<seq<bool>>, allow: seq<Cipher>,
                           version: u16, keyExchanges: set<nat>, authentications: set<nat>)
  {
    predicate Valid()
    {
      flags.Some? ==> |flags.value| == |prio|
    }

    predicate GoesOn(p: nat)
      requires Valid() && p < |prio|
    {
      flags.Some? && flags.value[p]
    }

    predicate Acceptable(p: nat)
      requires p < |prio|
    {
      Usable(prio[p], version, keyExchanges, authentications) && prio[p] in allow
    }

    function Rank(p: nat): nat
      requires p < |prio| && Acceptable(p)
    {
      IndexOf(allow, prio[p]).value
    }

    /** Positions `lo` up to `hi` are one whole group. */
    ghost predicate Group(lo: nat, hi: nat)
      requires Valid()
    {
      && lo < hi <= |prio| && (lo == 0 || !GoesOn(lo - 1)) && !GoesOn(hi - 1)
      && forall p :: lo <= p < hi - 1 ==> GoesOn(p)
    }

    /** The first group with an acceptable cipher is this one, and no cipher of it ranks before `r`. */
    ghost predicate Best(lo: nat, hi: nat, r: nat)
      requires Valid()
    {
      && Group(lo, hi)
      && (forall p :: 0 <= p < lo ==> !Acceptable(p))
      && (exists p :: lo <= p < hi && Acceptable(p) && Rank(p) == r)
      && (forall p :: lo <= p < hi && Acceptable(p) ==> r <= Rank(p))
    }

    /** Everything from `p` on is in one group that never ends. */
    ghost predicate Unended(p: nat)
      requires Valid()
    {
      forall q :: p <= q < |prio| ==> GoesOn(q)
    }
  }

  /** There is only one best choice. */
  lemma BestIsUnique(c: Choice, lo: nat, hi: nat, r: nat, lo': nat, hi': nat, r': nat)
    requires c.Valid() && c.Best(lo, hi, r) && c.Best(lo', hi', r')
    ensures r == r'
  {
    var p: nat :| lo <= p < hi && c.Acceptable(p) && c.Rank(p) == r;
    var p': nat :| lo' <= p' < hi' && c.Acceptable(p') && c.Rank(p') == r';
    SameGroup(c, lo, hi, p, lo', hi', p');
  }

  lemma SameGroup(c: Choice, lo: nat, hi: nat, p: nat, lo': nat, hi': nat, p': nat)
    requires c.Valid() && c.Group(lo, hi) && c.Group(lo', hi') && lo <= p < hi && lo' <= p' < hi'
    requires p' >= lo && p >= lo'
    ensures lo == lo' && hi == hi'
  {
  }

  /** `least` is the least index of an acceptable cipher in positions `lo` up to `i`, which are in one group. */
  ghost predicate Least(c: Choice, lo: nat, i: nat, least: Option<nat>)
    requires c.Valid() && lo <= i <= |c.prio|
  {
    && (lo == 0 || !c.GoesOn(lo - 1)) && (forall p :: lo <= p < i ==> c.GoesOn(p))
    && match least
       case None => forall p :: lo <= p < i ==> !c.Acceptable(p)
       case Some(m) => (exists p :: lo <= p < i && c.Acceptable(p) && c.Rank(p) == m)
                       && (forall p :: lo <= p < i && c.Acceptable(p) ==> m <= c.Rank(p))
  }

  ghost predicate NoneBefore(c: Choice, lo: nat)
    requires lo <= |c.prio|
  {
    forall p :: 0 <= p < lo ==> !c.Acceptable(p)
  }

  lemma LeastNext(c: Choice, lo: nat, i: nat, least: Option<nat>, next: Option<nat>)
    requires c.Valid() && lo <= i < |c.prio| && Least(c, lo, i, least) && c.GoesOn(i)
    requires next == if c.Acceptable(i) && (least.None? || least.value > c.Rank(i)) then Some(c.Rank(i)) else least
    ensures Least(c, lo, i + 1, next)
  {
  }

  lemma GroupEnds(c: Choice, lo: nat, i: nat, least: Option<nat>, r: nat)
    requires c.Valid() && lo <= i < |c.prio| && Least(c, lo, i, least) && NoneBefore(c, lo) && !c.GoesOn(i)
    requires if c.Acceptable(i) then r == if least.Some? && least.value < c.Rank(i) then least.value else c.Rank(i)
             else least == Some(r)
    ensures c.Best(lo, i + 1, r)
  {
    var p: nat := if c.Acceptable(i) && r == c.Rank(i) then i else
      var q: nat :| lo <= q < i && c.Acceptable(q) && c.Rank(q) == r; q;
    assert c.Acceptable(p) && c.Rank(p) == r;
  }

  /** A best choice comes from a group that ends. */
  lemma BestEnds(c: Choice, lo: nat, hi: nat, r: nat)
    requires c.Valid() && c.Best(lo, hi, r)
    ensures exists p: nat :: p < |c.prio| && c.Acceptable(p) && !c.Unended(p)
  {
    var p: nat :| lo <= p < hi && c.Acceptable(p) && c.Rank(p) == r;
    assert !c.GoesOn(hi - 1);
  }

  /** One pass over the ranking list; the least index found so far in a group is carried along. */
  method Choose(c: Choice) returns (r: Option<nat>)
    requires c.Valid()
    ensures r.Some? ==> r.value < |c.allow| && exists lo: nat, hi: nat :: c.Best(lo, hi, r.value)
    ensures r.None? <==> forall p: nat :: p < |c.prio| && c.Acceptable(p) ==> c.Unended(p)
  {
    var groupMin: Option<nat> := None;
    var i := 0;
    ghost var lo: nat := 0;
    while i < |c.prio|
      invariant lo <= i <= |c.prio| && Least(c, lo, i, groupMin) && NoneBefore(c, lo)
    {
      ghost var before := groupMin;
      assert lo < i ==> c.GoesOn(lo);
      var cipher := c.prio[i];
      var found := IndexOf(c.allow, cipher);
      if Usable(cipher, c.version, c.keyExchanges, c.authentications) && found.Some? {
        var cipherIndex := found.value;
        if c.flags.Some? && c.flags.value[i] {
          if groupMin.None? || groupMin.value > cipherIndex {
            groupMin := Some(cipherIndex);
          }
        } else {
          if groupMin.Some? && groupMin.value < cipherIndex {
            cipherIndex := groupMin.value;
          }
          GroupEnds(c, lo, i, before, cipherIndex);
          BestEnds(c, lo, i + 1, cipherIndex);
          return Some(cipherIndex);
        }
      }
      if c.flags.Some? && !c.flags.value[i] && groupMin.Some? {
        // The group ends here, with `groupMin` from earlier in it.
        GroupEnds(c, lo, i, before, groupMin.value);
        BestEnds(c, lo, i + 1, groupMin.value);
        return groupMin;
      }
      if c.GoesOn(i) {
        LeastNext(c, lo, i, before, groupMin);
      } else {
        assert !c.Acceptable(i);
        lo := i + 1;
      }
      i := i + 1;
    }
    return None;
  }

  /** With every group ended, there is no choice exactly if nothing is acceptable. */
  lemma NoneAcceptable(c: Choice)
    requires c.Valid() && (c.prio == [] || !c.GoesOn(|c.prio| - 1))
    requires forall p: nat :: p < |c.prio| && c.Acceptable(p) ==> c.Unended(p)
    ensures forall p: nat :: p < |c.prio| ==> !c.Acceptable(p)
  {
  }

  /**
   Why the last group must end, as it does in every list that the library builds: in a list whose last
   flag is set a cipher can be acceptable and yet never be chosen.
   */
  lemma UnendedGroupIsLost(cipher: Cipher, version: u16, r: nat, lo: nat, hi: nat)
    requires cipher.minVersion <= version <= cipher.maxVersion
    ensures var c := Choice([cipher], Some([true]), [cipher], version, {cipher.mkey}, {cipher.auth});
      c.Valid() && c.Acceptable(0) && !c.Best(lo, hi, r)
  {
  }

  /** Without groups, the best choice is the first cipher of the ranking list that fits and is on the other list. */
  lemma FirstFitting(c: Choice, lo: nat, hi: nat, r: nat)
    requires c.Valid() && c.flags.None? && c.Best(lo, hi, r) && r < |c.allow|
    ensures lo < |c.prio| && c.allow[r] == c.prio[lo]
    ensures forall p :: 0 <= p < lo ==>
      var x := c.prio[p];
      !(x.minVersion <= c.version <= x.maxVersion && x.mkey in c.keyExchanges && x.auth in c.authentications
        && x in c.allow)
  {
    assert !c.GoesOn(lo);
    assert c.Acceptable(lo) && c.Rank(lo) == r;
    forall p | 0 <= p < lo
      ensures var x := c.prio[p];
        !(x.minVersion <= c.version <= x.maxVersion && x.mkey in c.keyExchanges && x.auth in c.authentications
          && x in c.allow)
    {
      assert !c.Acceptable(p);
    }
  }

  /** What the server chooses from: its own preference, with its groups, or the client's order. */
  function ChoiceFor(client: seq<Cipher>, serverPreference: bool,
                     serverList: seq<Cipher>, serverFlags: Option<seq<bool>>,
                     version: u16, keyExchanges: set<nat>, authentications: set<nat>): (c: Choice)
    requires serverFlags.Some? ==> |serverFlags.value| == |serverList|
    ensures c.Valid()
  {
    if serverPreference then Choice(serverList, serverFlags, client, version, keyExchanges, authentications)
    else Choice(client, None, serverList, version, keyExchanges, authentications)
  }

  /** `cipher` is the best of a choice, or none of its acceptable ciphers is in a group that ends. */
  ghost predicate RightlyChosen(c: Choice, cipher: Option<Cipher>)
    requires c.Valid()
  {
    match cipher
    case Some(x) => exists lo: nat, hi: nat, r: nat :: r < |c.allow| && c.Best(lo, hi, r) && c.allow[r] == x
    case None => forall p: nat :: p < |c.prio| && c.Acceptable(p) ==> c.Unended(p)
  }

  method ChooseCipher(suites: bytes, table: map<u16, Cipher>, serverPreference: bool, serverList: seq<Cipher>,
                      serverFlags: Option<seq<bool>>, version: u16, keyExchanges: set<nat>, authentications: set<nat>)
    returns (cipher: Option<Cipher>)
    requires serverFlags.Some? ==> |serverFlags.value| == |serverList|
    ensures cipher.Some? ==>
      && cipher.value.minVersion <= version <= cipher.value.maxVersion
      && cipher.value.mkey in keyExchanges && cipher.value.auth in authentications
    ensures |suites| % 2 == 1 <==> Known(suites, table).None?
    ensures cipher.None? && Known(suites, table).Some? && (!serverPreference || serverFlags.None?) ==>
      forall x :: x in Known(suites, table).value && x in serverList ==>
        !(x.minVersion <= version <= x.maxVersion && x.mkey in keyExchanges && x.auth in authentications)
    ensures match Known(suites, table)
      case None => cipher.None?
      case Some(client) =>
        var c := ChoiceFor(client, serverPreference, serverList, serverFlags, version, keyExchanges, authentications);
        RightlyChosen(c, cipher)
    ensures cipher.Some? ==> cipher.value in Known(suites, table).value
    ensures cipher.Some? ==> cipher.value in serverList
  {
    var client := ParseClientCiphers(suites, table);
    KnownIfEven(suites, table);
    if client.None? {
      return None;
    }
    var c := ChoiceFor(client.value, serverPreference, serverList, serverFlags, version, keyExchanges, authentications);
    var r := Choose(c);
    if r.None? {
      if c.flags.None? {
        NothingFits(c);
      }
      return None;
    }
    ChosenIsBoth(c, r.value);
    return Some(c.allow[r.value]);
  }

  lemma NothingFits(c: Choice)
    requires c.Valid() && c.flags.None?
    requires forall p: nat :: p < |c.prio| && c.Acceptable(p) ==> c.Unended(p)
    ensures forall x :: x in c.prio && x in c.allow ==> !Usable(x, c.version, c.keyExchanges, c.authentications)
  {
    forall x | x in c.prio && x in c.allow ensures !Usable(x, c.version, c.keyExchanges, c.authentications) {
      var p: nat :| p < |c.prio| && c.prio[p] == x;
      assert !c.Unended(p) by {
        assert !c.GoesOn(p);
      }
    }
  }

  lemma ChosenIsBoth(c: Choice, r: nat)
    requires c.Valid() && r < |c.allow| && exists lo: nat, hi: nat :: c.Best(lo, hi, r)
    ensures Usable(c.allow[r], c.version, c.keyExchanges, c.authentications)
    ensures c.allow[r] in c.prio
  {
    var lo: nat, hi: nat :| c.Best(lo, hi, r);
    var p: nat :| lo <= p < hi && c.Acceptable(p) && c.Rank(p) == r;
    assert c.allow[r] == c.prio[p];
  }
}
