/** Merging planned accounts by key, ordering them by privilege, and moving them to a lookup table. */
module V0Accounts {
  import opened Machine
  import opened AccountPlan

  datatype UniqueAccount = UniqueAccount(pubkey: Pubkey, isSigner: bool, isWritable: bool, isInvoked: bool)

  // ----- Merging

  /** The fee payer is always a writable signer. */
  predicate WantsSigner(a: Planned) {
    a.isSigner || a.kind == User
  }

  predicate WantsWritable(a: Planned) {
    a.isWritable || a.kind == User
  }

  predicate Invokes(a: Planned) {
    a.kind == Program
  }

  predicate Any(a: Planned) {
    true
  }

  function Absorb(u: UniqueAccount, a: Planned): UniqueAccount {
    UniqueAccount(u.pubkey, u.isSigner || WantsSigner(a), u.isWritable || WantsWritable(a), u.isInvoked || Invokes(a))
  }

  ghost predicate SomeMention(accounts: seq<Planned>, key: Pubkey, p: Planned -> bool) {
    exists i :: 0 <= i < |accounts| && accounts[i].pubkey == key && p(accounts[i])
  }

  ghost predicate KeysDistinct(s: seq<UniqueAccount>) {
    forall i, j :: 0 <= i < j < |s| ==> s[i].pubkey != s[j].pubkey
  }

  /** Each mentioned key appears once, with exactly the privileges some mention asks for. */
  ghost predicate Merged(accounts: seq<Planned>, unique: seq<UniqueAccount>) {
    && KeysDistinct(unique)
    && (forall k :: 0 <= k < |unique| ==>
          var u := unique[k];
          && SomeMention(accounts, u.pubkey, Any)
          && (u.isSigner <==> SomeMention(accounts, u.pubkey, WantsSigner))
          && (u.isWritable <==> SomeMention(accounts, u.pubkey, WantsWritable))
          && (u.isInvoked <==> SomeMention(accounts, u.pubkey, Invokes)))
    && (forall i :: 0 <= i < |accounts| ==> exists k :: 0 <= k < |unique| && unique[k].pubkey == accounts[i].pubkey)
  }

  lemma MentionSnoc(accounts: seq<Planned>, a: Planned, key: Pubkey, p: Planned -> bool)
    ensures SomeMention(accounts + [a], key, p) <==> SomeMention(accounts, key, p) || (a.pubkey == key && p(a))
  {
    var more := accounts + [a];
    if SomeMention(accounts, key, p) {
      var i :| 0 <= i < |accounts| && accounts[i].pubkey == key && p(accounts[i]);
      assert more[i].pubkey == key && p(more[i]);
    }
    if a.pubkey == key && p(a) {
      assert more[|accounts|].pubkey == key && p(more[|accounts|]);
    }
  }

  lemma MentionsSnoc(accounts: seq<Planned>, a: Planned, key: Pubkey)
    ensures SomeMention(accounts + [a], key, Any) <==> SomeMention(accounts, key, Any) || a.pubkey == key
    ensures SomeMention(accounts + [a], key, WantsSigner)
       <==> SomeMention(accounts, key, WantsSigner) || (a.pubkey == key && WantsSigner(a))
    ensures SomeMention(accounts + [a], key, WantsWritable)
       <==> SomeMention(accounts, key, WantsWritable) || (a.pubkey == key && WantsWritable(a))
    ensures SomeMention(accounts + [a], key, Invokes)
       <==> SomeMention(accounts, key, Invokes) || (a.pubkey == key && Invokes(a))
  {
    MentionSnoc(accounts, a, key, Any);
    MentionSnoc(accounts, a, key, WantsSigner);
    MentionSnoc(accounts, a, key, WantsWritable);
    MentionSnoc(accounts, a, key, Invokes);
  }

  /** The position of a key, or the length if it is absent. */
  function PositionOf(s: seq<UniqueAccount>, key: Pubkey): (k: nat)
    ensures k <= |s|
    ensures k < |s| ==> s[k].pubkey == key
    ensures forall j :: 0 <= j < k ==> s[j].pubkey != key
  {
    if s == [] || s[0].pubkey == key then 0 else 1 + PositionOf(s[1..], key)
  }

  function Merge(unique: seq<UniqueAccount>, a: Planned): seq<UniqueAccount> {
    var k := PositionOf(unique, a.pubkey);
    if k < |unique| then unique[k := Absorb(unique[k], a)]
    else unique + [UniqueAccount(a.pubkey, WantsSigner(a), WantsWritable(a), Invokes(a))]
  }

  function UniqueAccounts(accounts: seq<Planned>): (unique: seq<UniqueAccount>)
    ensures |unique| <= |accounts|
  {
    if accounts == [] then [] else Merge(UniqueAccounts(accounts[..|accounts| - 1]), accounts[|accounts| - 1])
  }

  lemma MergeMerges(accounts: seq<Planned>, unique: seq<UniqueAccount>, a: Planned)
    requires Merged(accounts, unique)
    ensures Merged(accounts + [a], Merge(unique, a))
  {
    hide SomeMention;
    var more, next := accounts + [a], Merge(unique, a);
    var at := PositionOf(unique, a.pubkey);
    NoMentionOutside(accounts, unique, a.pubkey);
    assert forall k :: 0 <= k < |unique| ==> next[k].pubkey == unique[k].pubkey;
    assert KeysDistinct(next);
    forall k | 0 <= k < |next|
      ensures
        var u := next[k];
        && SomeMention(more, u.pubkey, Any)
        && (u.isSigner <==> SomeMention(more, u.pubkey, WantsSigner))
        && (u.isWritable <==> SomeMention(more, u.pubkey, WantsWritable))
        && (u.isInvoked <==> SomeMention(more, u.pubkey, Invokes))
    {
      MentionsSnoc(accounts, a, next[k].pubkey);
      if k < |unique| && k != at {
        assert unique[k].pubkey != a.pubkey;
      }
    }
    forall i | 0 <= i < |more|
      ensures exists k :: 0 <= k < |next| && next[k].pubkey == more[i].pubkey
    {
      if i < |accounts| {
        var k :| 0 <= k < |unique| && unique[k].pubkey == accounts[i].pubkey;
        assert next[k].pubkey == more[i].pubkey;
      } else {
        assert next[at].pubkey == more[i].pubkey;
      }
    }
  }

  lemma NoMentionOutside(accounts: seq<Planned>, unique: seq<UniqueAccount>, key: Pubkey)
    requires Merged(accounts, unique)
    ensures
      PositionOf(unique, key) == |unique| ==>
        && !SomeMention(accounts, key, Any) && !SomeMention(accounts, key, WantsSigner)
        && !SomeMention(accounts, key, WantsWritable) && !SomeMention(accounts, key, Invokes)
  {
  }

  lemma {:induction false} UniqueAccountsMerged(accounts: seq<Planned>)
    ensures Merged(accounts, UniqueAccounts(accounts))
    decreases |accounts|
  {
    hide Merge, Merged;
    if accounts == [] {
      NothingMerged();
    } else {
      var init, a := accounts[..|accounts| - 1], accounts[|accounts| - 1];
      UniqueAccountsMerged(init);
      MergeMerges(init, UniqueAccounts(init), a);
      assert accounts == init + [a];
    }
  }

  lemma NothingMerged()
    ensures Merged([], [])
  {
  }

  /** The program's loop, updating the matching entry in place. */
  method CollectUnique(accounts: seq<Planned>) returns (unique: seq<UniqueAccount>)
    ensures unique == UniqueAccounts(accounts)
  {
    unique := [];
    for n := 0 to |accounts|
      invariant unique == UniqueAccounts(accounts[..n])
    {
      var a := accounts[n];
      assert accounts[..n + 1][..n] == accounts[..n];
      var k := PositionOf(unique, a.pubkey);
      if k < |unique| {
        unique := unique[k := Absorb(unique[k], a)];
      } else {
        unique := unique + [UniqueAccount(a.pubkey, WantsSigner(a), WantsWritable(a), Invokes(a))];
      }
    }
    assert accounts[..|accounts|] == accounts;
  }

  // ----- Selecting in order

  function Filter<T>(p: T -> bool, s: seq<T>): (r: seq<T>)
    ensures |r| <= |s|
  {
    if s == [] then []
    else
      var init := Filter(p, s[..|s| - 1]);
      if p(s[|s| - 1]) then init + [s[|s| - 1]] else init
  }

  lemma {:induction false} FilterMembers<T>(p: T -> bool, s: seq<T>, x: T)
    ensures x in Filter(p, s) <==> x in s && p(x)
    decreases |s|
  {
    if s != [] {
      FilterMembers(p, s[..|s| - 1], x);
      assert s == s[..|s| - 1] + [s[|s| - 1]];
    }
  }

  lemma FilterIsSelection<T>(p: T -> bool, s: seq<T>)
    ensures forall x :: x in Filter(p, s) <==> x in s && p(x)
  {
  }

  lemma FilterSnoc<T>(p: T -> bool, s: seq<T>, x: T)
    ensures Filter(p, s + [x]) == if p(x) then Filter(p, s) + [x] else Filter(p, s)
  {
  }

  lemma {:induction false} FilterConcat<T>(p: T -> bool, s: seq<T>, t: seq<T>)
    ensures Filter(p, s + t) == Filter(p, s) + Filter(p, t)
    decreases |t|
  {
    if t == [] {
      assert s + t == s;
    } else {
      var n := |t| - 1;
      assert (s + t)[..|s + t| - 1] == s + t[..n];
      FilterConcat(p, s, t[..n]);
      assert (s + t)[|s + t| - 1] == t[n];
    }
  }

  lemma {:induction false} FilterAll<T>(p: T -> bool, s: seq<T>)
    requires forall i :: 0 <= i < |s| ==> p(s[i])
    ensures Filter(p, s) == s
    decreases |s|
  {
    if s != [] {
      FilterAll(p, s[..|s| - 1]);
    }
  }

  lemma {:induction false} FilterNone<T>(p: T -> bool, s: seq<T>)
    requires forall i :: 0 <= i < |s| ==> !p(s[i])
    ensures Filter(p, s) == []
    decreases |s|
  {
    if s != [] {
      FilterNone(p, s[..|s| - 1]);
    }
  }

  lemma {:induction false} FilterKeepsDistinct(p: UniqueAccount -> bool, s: seq<UniqueAccount>)
    requires KeysDistinct(s)
    ensures KeysDistinct(Filter(p, s))
    decreases |s|
  {
    if s != [] {
      var init, last := s[..|s| - 1], s[|s| - 1];
      FilterKeepsDistinct(p, init);
      var kept := Filter(p, init);
      forall i | 0 <= i < |kept|
        ensures kept[i].pubkey != last.pubkey
      {
        FilterMembers(p, init, kept[i]);
        assert kept[i] in kept;
        var j :| 0 <= j < |init| && init[j] == kept[i];
        assert s[j] == kept[i];
      }
    }
  }

  /** Two selections of different accounts from one list have no key in common. */
  lemma DisjointSelections(s: seq<UniqueAccount>, a: seq<UniqueAccount>, b: seq<UniqueAccount>)
    requires KeysDistinct(s) && KeysDistinct(a) && KeysDistinct(b)
    requires forall x :: x in a ==> x in s && x !in b
    requires forall x :: x in b ==> x in s
    ensures KeysDistinct(a + b)
  {
    forall i, j | 0 <= i < |a| && 0 <= j < |b|
      ensures a[i].pubkey != b[j].pubkey
    {
      assert a[i] in a && b[j] in b;
      var x :| 0 <= x < |s| && s[x] == a[i];
      var y :| 0 <= y < |s| && s[y] == b[j];
    }
  }
}
