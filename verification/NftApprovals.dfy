/** Building a transaction that lets others spend NFTs: approvals for the same token and spender
    are merged into one entry, changed in place. */
module NftApprovals {
  import opened Wrappers
  import opened Sequences

  /** An approval as its caller asks for it: one serial number, or all of them. */
  datatype Call =
    | Serial(token: string, spender: string, owner: Option<string>, serial: int)
    | AllSerials(token: string, spender: string, owner: Option<string>, delegating: Option<string>)

  /** The contents of one entry of the transaction. */
  datatype Entry = Entry(token: string, spender: string, owner: Option<string>, serials: seq<int>,
                         allSerials: bool, delegating: Option<string>)

  predicate For(e: Entry, token: string, spender: string)
  {
    e.token == token && e.spender == spender
  }

  /** The first entry for a token and spender, or the length of the list. */
  function Position(entries: seq<Entry>, token: string, spender: string): (i: nat)
    ensures i <= |entries|
    ensures i < |entries| ==> For(entries[i], token, spender)
    ensures forall j :: 0 <= j < i ==> !For(entries[j], token, spender)
  {
    if entries == [] then 0
    else if For(entries[0], token, spender) then 0
    else 1 + Position(entries[1..], token, spender)
  }

  function Changed(e: Entry, c: Call): Entry
  {
    match c
    case Serial(_, _, _, serial) => if serial in e.serials then e else e.(serials := e.serials + [serial])
    case AllSerials(_, _, _, delegating) => e.(serials := [], allSerials := true, delegating := delegating)
  }

  function Made(c: Call): Entry
  {
    match c
    case Serial(token, spender, owner, serial) => Entry(token, spender, owner, [serial], false, None)
    case AllSerials(token, spender, owner, delegating) => Entry(token, spender, owner, [], true, delegating)
  }

  function Apply(entries: seq<Entry>, c: Call): seq<Entry>
  {
    var i := Position(entries, c.token, c.spender);
    if i < |entries| then entries[i := Changed(entries[i], c)] else entries + [Made(c)]
  }

  /** The transaction after a run of approvals. */
  function Run(calls: seq<Call>): seq<Entry>
  {
    if calls == [] then [] else Apply(Run(calls[..|calls| - 1]), calls[|calls| - 1])
  }

  // ---------------------------------------------------------------- the transaction

  class TokenNftAllowance {
    const token: string
    const spender: string
    const owner: Option<string>
    var serials: seq<int>
    var allSerials: bool
    var delegating: Option<string>

    constructor (c: Call)
      ensures Value() == Made(c)
    {
      token, spender, owner := c.token, c.spender, c.owner;
      serials := if c.Serial? then [c.serial] else [];
      allSerials := c.AllSerials?;
      delegating := if c.AllSerials? then c.delegating else None;
    }

    function Value(): Entry
      reads this
    {
      Entry(token, spender, owner, serials, allSerials, delegating)
    }

    method AddSerial(token: string, spender: string, owner: Option<string>, serial: int)
      modifies this
      ensures Value() == Changed(old(Value()), Serial(token, spender, owner, serial))
    {
      var listed := Contains(serials, serial);
      if !listed {
        serials := serials + [serial];
      }
    }

    method AllowAll(token: string, spender: string, owner: Option<string>, delegating: Option<string>)
      modifies this
      ensures Value() == Changed(old(Value()), AllSerials(token, spender, owner, delegating))
    {
      serials := [];
      allSerials := true;
      this.delegating := delegating;
    }
  }

  function Values(allowances: seq<TokenNftAllowance>): (r: seq<Entry>)
    reads allowances
    ensures |r| == |allowances|
    ensures forall i :: 0 <= i < |r| ==> r[i] == allowances[i].Value()
  {
    if allowances == [] then []
    else Values(allowances[..|allowances| - 1]) + [allowances[|allowances| - 1].Value()]
  }

  class AccountAllowanceApproveTransaction {
    var nftAllowances: seq<TokenNftAllowance>

    /** No entry is listed twice. */
    ghost predicate Valid()
      reads this
    {
      NoDuplicates(nftAllowances)
    }

    constructor ()
      ensures Valid() && nftAllowances == []
    {
      nftAllowances := [];
    }

    /** The entry for a token and spender, if there is one. */
    method Find(token: string, spender: string) returns (i: nat)
      ensures i == Position(Values(nftAllowances), token, spender)
    {
      i := 0;
      while i < |nftAllowances|
        invariant 0 <= i <= |nftAllowances|
        invariant forall j :: 0 <= j < i ==> !For(Values(nftAllowances)[j], token, spender)
      {
        if nftAllowances[i].token == token {
          if nftAllowances[i].spender == spender {
            return;
          }
        }
        i := i + 1;
      }
    }

    /** Adds one serial number, unless the entry lists it already. Who owns the NFT is not
        looked at. */
    method ApproveTokenNftApproval(token: string, serial: int, owner: Option<string>, spender: string)
      requires Valid()
      modifies this, nftAllowances
      ensures Valid() && Values(nftAllowances)
          == Apply(old(Values(nftAllowances)), Serial(token, spender, owner, serial))
      ensures forall t :: t in nftAllowances ==> t in old(nftAllowances) || fresh(t)
    {
      hide Position, Changed, Made, NoDuplicates, Values, For, TokenNftAllowance.Value;
      var i := Find(token, spender);
      if i < |nftAllowances| {
        nftAllowances[i].AddSerial(token, spender, owner, serial);
        OneChanged(nftAllowances, i, old(Values(nftAllowances)));
        return;
      }
      var made := new TokenNftAllowance(Serial(token, spender, owner, serial));
      Extend(made);
    }

    /** Approves every serial number: those listed are dropped. */
    method ApproveAllSerials(token: string, owner: Option<string>, spender: string, delegating: Option<string>)
      requires Valid()
      modifies this, nftAllowances
      ensures Valid() && Values(nftAllowances)
          == Apply(old(Values(nftAllowances)), AllSerials(token, spender, owner, delegating))
      ensures forall t :: t in nftAllowances ==> t in old(nftAllowances) || fresh(t)
    {
      hide Position, Changed, Made, NoDuplicates, Values, For, TokenNftAllowance.Value;
      var i := Find(token, spender);
      if i < |nftAllowances| {
        nftAllowances[i].AllowAll(token, spender, owner, delegating);
        OneChanged(nftAllowances, i, old(Values(nftAllowances)));
        return;
      }
      var made := new TokenNftAllowance(AllSerials(token, spender, owner, delegating));
      Extend(made);
    }

    /** The public form without a delegating spender forgets whose NFTs they are. */
    method ApproveTokenNftAllowanceAllSerials(token: string, owner: string, spender: string)
      requires Valid()
      modifies this, nftAllowances
      ensures Valid() && Values(nftAllowances)
          == Apply(old(Values(nftAllowances)), AllSerials(token, spender, None, None))
    {
      ApproveAllSerials(token, None, spender, None);
    }

    method Extend(made: TokenNftAllowance)
      requires Valid() && made !in nftAllowances
      modifies this
      ensures Valid() && nftAllowances == old(nftAllowances) + [made]
      ensures Values(nftAllowances) == old(Values(nftAllowances)) + [made.Value()]
    {
      ghost var before := nftAllowances;
      nftAllowances := nftAllowances + [made];
      assert nftAllowances[..|nftAllowances| - 1] == before;
    }
  }

  lemma OneChanged(allowances: seq<TokenNftAllowance>, i: nat, before: seq<Entry>)
    requires |before| == |allowances| && i < |allowances| && NoDuplicates(allowances)
    requires forall j :: 0 <= j < |allowances| && allowances[j] != allowances[i] ==> allowances[j].Value() == before[j]
    ensures Values(allowances) == before[i := allowances[i].Value()]
  {
  }

  method Contains(serials: seq<int>, serial: int) returns (b: bool)
    ensures b <==> serial in serials
  {
    b := false;
    var k := 0;
    while k < |serials|
      invariant 0 <= k <= |serials| && (b <==> serial in serials[..k])
    {
      if serials[k] == serial {
        b := true;
      }
      k := k + 1;
    }
  }

  // ---------------------------------------------------------------- entries do not interfere

  function Lookup(entries: seq<Entry>, token: string, spender: string): (r: Option<Entry>)
    ensures r.Some? ==> r.value in entries && For(r.value, token, spender)
  {
    var i := Position(entries, token, spender);
    if i < |entries| then Some(entries[i]) else None
  }

  function Next(e: Option<Entry>, c: Call): Option<Entry>
  {
    Some(if e.Some? then Changed(e.value, c) else Made(c))
  }

  lemma PositionIs(entries: seq<Entry>, token: string, spender: string, i: nat)
    requires i <= |entries| && (i < |entries| ==> For(entries[i], token, spender))
    requires forall j :: 0 <= j < i ==> !For(entries[j], token, spender)
    ensures Position(entries, token, spender) == i
  {
  }

  /** An approval touches the entry of its own token and spender and no other. */
  lemma ApplyLooksUp(entries: seq<Entry>, c: Call, token: string, spender: string)
    ensures Lookup(Apply(entries, c), token, spender)
         == if c.token == token && c.spender == spender then Next(Lookup(entries, token, spender), c)
            else Lookup(entries, token, spender)
  {
    hide Position;
    var after := Apply(entries, c);
    var i, p := Position(entries, token, spender), Position(entries, c.token, c.spender);
    if c.token == token && c.spender == spender {
      PositionIs(after, token, spender, i);
    } else {
      PositionIs(after, token, spender, if i < |entries| then i else |after|);
    }
  }

  function CallsFor(calls: seq<Call>, token: string, spender: string): seq<Call>
  {
    if calls == [] then []
    else
      var init, c := CallsFor(calls[..|calls| - 1], token, spender), calls[|calls| - 1];
      if c.token == token && c.spender == spender then init + [c] else init
  }

  /** What one entry becomes when it is the only one. */
  function Folded(calls: seq<Call>): Option<Entry>
  {
    if calls == [] then None else Next(Folded(calls[..|calls| - 1]), calls[|calls| - 1])
  }

  /** An entry depends on the approvals for its own token and spender alone. */
  lemma {:induction false} EntriesIndependent(calls: seq<Call>, token: string, spender: string)
    ensures Lookup(Run(calls), token, spender) == Folded(CallsFor(calls, token, spender))
  {
    if calls != [] {
      var n := |calls| - 1;
      EntriesIndependent(calls[..n], token, spender);
      ApplyLooksUp(Run(calls[..n]), calls[n], token, spender);
      var own := CallsFor(calls[..n], token, spender);
      assert (own + [calls[n]])[..|own|] == own;
    }
  }

  predicate UniqueEntries(entries: seq<Entry>)
  {
    forall i, j :: 0 <= i < j < |entries| ==>
        entries[i].token != entries[j].token || entries[i].spender != entries[j].spender
  }

  lemma ApplyKeepsUnique(entries: seq<Entry>, c: Call)
    requires UniqueEntries(entries) && forall e :: e in entries ==> NoDuplicates(e.serials)
    ensures UniqueEntries(Apply(entries, c)) && forall e :: e in Apply(entries, c) ==> NoDuplicates(e.serials)
  {
    var after := Apply(entries, c);
    forall i, j | 0 <= i < j < |after|
      ensures after[i].token != after[j].token || after[i].spender != after[j].spender
    {
      if j < |entries| {
        assert entries[i].token == after[i].token && entries[j].token == after[j].token;
      } else {
        assert !For(entries[i], c.token, c.spender);
      }
    }
  }

  /** Every run leaves at most one entry for a token and spender, without repeated serials. */
  lemma {:induction false} RunUnique(calls: seq<Call>)
    ensures UniqueEntries(Run(calls)) && forall e :: e in Run(calls) ==> NoDuplicates(e.serials)
  {
    if calls != [] {
      RunUnique(calls[..|calls| - 1]);
      ApplyKeepsUnique(Run(calls[..|calls| - 1]), calls[|calls| - 1]);
    }
  }

  // ---------------------------------------------------------------- coverage

  predicate Covers(c: Call, token: string, spender: string, serial: int)
  {
    c.token == token && c.spender == spender && (c.AllSerials? || c.serial == serial)
  }

  predicate Allows(e: Entry, token: string, spender: string, serial: int)
  {
    For(e, token, spender) && (e.allSerials || serial in e.serials)
  }

  lemma {:induction false} FoldedCovers(calls: seq<Call>, token: string, spender: string, serial: int)
    requires forall c :: c in calls ==> c.token == token && c.spender == spender
    ensures Folded(calls).Some? && Allows(Folded(calls).value, token, spender, serial)
       <==> exists i :: 0 <= i < |calls| && Covers(calls[i], token, spender, serial)
    ensures Folded(calls).Some? ==> For(Folded(calls).value, token, spender)
  {
    if calls != [] {
      var n := |calls| - 1;
      FoldedCovers(calls[..n], token, spender, serial);
      assert forall i :: 0 <= i < n ==> calls[..n][i] == calls[i];
    }
  }

  lemma {:induction false} CallsForCovers(calls: seq<Call>, token: string, spender: string, serial: int)
    ensures forall c :: c in CallsFor(calls, token, spender) <==> c in calls && c.token == token && c.spender == spender
  {
    if calls != [] {
      var n := |calls| - 1;
      CallsForCovers(calls[..n], token, spender, serial);
      TakeAppend(calls, n);
      TakeAll(calls);
    }
  }

  /** A serial is approved for a spender exactly when some call asked for it, by number or with all
      the token's serials: neither the merging nor the dropping of listed serials loses any. */
  lemma CoverageExact(calls: seq<Call>, token: string, spender: string, serial: int)
    ensures (exists e :: e in Run(calls) && Allows(e, token, spender, serial))
       <==> (exists c :: c in calls && Covers(c, token, spender, serial))
  {
    RunUnique(calls);
    EntriesIndependent(calls, token, spender);
    var own := CallsFor(calls, token, spender);
    CallsForCovers(calls, token, spender, serial);
    FoldedCovers(own, token, spender, serial);
    LookupIsOnly(Run(calls), token, spender);
    if c :| c in calls && Covers(c, token, spender, serial) {
      assert c in own;
    }
  }

  lemma LookupIsOnly(entries: seq<Entry>, token: string, spender: string)
    requires UniqueEntries(entries)
    ensures forall e :: e in entries && For(e, token, spender) ==> Lookup(entries, token, spender) == Some(e)
  {
  }

  // ---------------------------------------------------------------- the serials an entry lists

  /** No approval of all serials comes after the one at `i`. */
  predicate NoneBehind(calls: seq<Call>, i: nat)
  {
    forall j :: i < j < |calls| ==> calls[j].Serial?
  }

  /** The approval at `i` is what put its serial on the list: no approval of all serials comes after
      it, nor is there an earlier one of the same serial without one in between. */
  predicate Lists(calls: seq<Call>, i: nat)
  {
    && i < |calls| && calls[i].Serial? && NoneBehind(calls, i)
    && forall j :: 0 <= j < i && calls[j].Serial? && calls[j].serial == calls[i].serial ==>
                     exists k :: j < k < i && calls[k].AllSerials?
  }

  /** Where the serials of an entry come from: each from a call of its own, in the order of the
      calls. The rest of the serials are dropped. */
  predicate ListedFrom(e: Entry, calls: seq<Call>, at: seq<nat>)
  {
    && |at| == |e.serials| && (forall j, k :: 0 <= j < k < |at| ==> at[j] < at[k])
    && (forall k :: 0 <= k < |at| ==> Lists(calls, at[k]) && calls[at[k]].serial == e.serials[k])
    && (forall i :: 0 <= i < |calls| && calls[i].Serial? && NoneBehind(calls, i) ==> calls[i].serial in e.serials)
  }

  lemma ListsStill(calls: seq<Call>, c: Call, i: nat)
    requires i < |calls|
    ensures NoneBehind(calls + [c], i) <==> NoneBehind(calls, i) && c.Serial?
    ensures Lists(calls + [c], i) <==> Lists(calls, i) && c.Serial?
  {
    var all := calls + [c];
    assert all[|calls|] == c;
    assert forall j :: 0 <= j < |calls| ==> all[j] == calls[j];
  }

  /** The serials of an entry are those asked for since the last approval of all serials, each once,
      in the order they were first asked for. */
  lemma {:induction false} SerialsSince(calls: seq<Call>) returns (at: seq<nat>)
    requires calls != []
    ensures Folded(calls).Some? && ListedFrom(Folded(calls).value, calls, at)
    ensures Folded(calls).value.allSerials <==> exists c :: c in calls && c.AllSerials?
    decreases |calls|
  {
    hide ListedFrom, Changed, Made;
    var n := |calls| - 1;
    var init, c := calls[..n], calls[n];
    assert calls == init + [c];
    if n == 0 {
      assert init == [];
      at := SerialsFirst(c);
    } else {
      var before := SerialsSince(init);
      at := SerialsNext(init, c, Folded(init).value, before);
    }
    AllSerialsOnce(if init == [] then None else Folded(init), c);
  }

  lemma SerialsFirst(c: Call) returns (at: seq<nat>)
    ensures ListedFrom(Made(c), [c], at)
  {
    at := if c.Serial? then [0] else [];
  }

  lemma AllSerialsOnce(e: Option<Entry>, c: Call)
    ensures Next(e, c).value.allSerials <==> c.AllSerials? || (e.Some? && e.value.allSerials)
  {
  }

  lemma SerialsNext(calls: seq<Call>, c: Call, e: Entry, at: seq<nat>) returns (after: seq<nat>)
    requires ListedFrom(e, calls, at)
    ensures ListedFrom(Changed(e, c), calls + [c], after)
  {
    var all := calls + [c];
    forall i | 0 <= i < |calls|
      ensures all[i] == calls[i]
      ensures NoneBehind(all, i) <==> NoneBehind(calls, i) && c.Serial?
      ensures Lists(all, i) <==> Lists(calls, i) && c.Serial?
    {
      ListsStill(calls, c, i);
    }
    hide Lists;
    if c.AllSerials? {
      after := [];
    } else if c.serial in e.serials {
      after := at;
    } else {
      after := at + [|calls|];
      FirstAsked(calls, c, e, at);
    }
  }

  lemma FirstAsked(calls: seq<Call>, c: Call, e: Entry, at: seq<nat>)
    requires ListedFrom(e, calls, at) && c.Serial? && c.serial !in e.serials
    ensures Lists(calls + [c], |calls|)
  {
    var all := calls + [c];
    forall j | 0 <= j < |calls| && all[j].Serial? && all[j].serial == c.serial
      ensures exists k :: j < k < |calls| && all[k].AllSerials?
    {
      assert all[j] == calls[j];
      assert !NoneBehind(calls, j);
      var k :| j < k < |calls| && !calls[k].Serial?;
      assert all[k] == calls[k];
    }
  }

  /** The same of the entry a run leaves for a token and spender. */
  lemma SerialsOfEntry(calls: seq<Call>, c: Call) returns (at: seq<nat>)
    requires c in calls
    ensures var own, e := CallsFor(calls, c.token, c.spender), Lookup(Run(calls), c.token, c.spender);
            && c in own && e.Some? && ListedFrom(e.value, own, at)
            && (e.value.allSerials <==> exists d :: d in own && d.AllSerials?)
  {
    var own := CallsFor(calls, c.token, c.spender);
    CallsForCovers(calls, c.token, c.spender, 0);
    EntriesIndependent(calls, c.token, c.spender);
    at := SerialsSince(own);
  }

  // ---------------------------------------------------------------- in whose name approvals are given

  lemma {:induction false} FirstOwnerStays(calls: seq<Call>)
    requires calls != []
    ensures Folded(calls).Some? && Folded(calls).value.owner == calls[0].owner
  {
    if |calls| > 1 {
      FirstOwnerStays(calls[..|calls| - 1]);
    } else {
      assert calls[..|calls| - 1] == [];
    }
  }

  /** The delegating spender a call asks for; an approval of one serial has none. */
  function DelegateOf(c: Call): Option<string>
  {
    if c.AllSerials? then c.delegating else None
  }

  /** The one of the last all-serials approval, if there is such an approval. */
  function LastDelegate(calls: seq<Call>): Option<string>
  {
    if calls == [] then None
    else if calls[|calls| - 1].AllSerials? then calls[|calls| - 1].delegating
    else LastDelegate(calls[..|calls| - 1])
  }

  lemma {:induction false} LastDelegateStays(calls: seq<Call>)
    requires calls != []
    ensures Folded(calls).Some? && Folded(calls).value.delegating == LastDelegate(calls)
  {
    if |calls| > 1 {
      LastDelegateStays(calls[..|calls| - 1]);
    } else {
      assert calls[..|calls| - 1] == [];
    }
  }

  lemma {:induction false} SameDelegates(calls: seq<Call>, delegating: Option<string>)
    requires calls != [] && forall c :: c in calls ==> DelegateOf(c) == delegating
    ensures LastDelegate(calls) == delegating
  {
    var n := |calls| - 1;
    assert calls[n] in calls;
    if !calls[n].AllSerials? {
      if n == 0 {
        assert calls[..n] == [];
      } else {
        SameDelegates(calls[..n], delegating);
      }
    }
  }

  /** Approvals for one token and spender all name one owner and one delegating spender. */
  predicate OneNameEach(calls: seq<Call>)
  {
    forall c, d :: c in calls && d in calls && c.token == d.token && c.spender == d.spender ==>
                     c.owner == d.owner && DelegateOf(c) == DelegateOf(d)
  }

  /** In whose name a serial may be spent: its owner, and the spender delegating the right. */
  datatype Name = Name(owner: Option<string>, delegating: Option<string>)

  predicate Granted(entries: seq<Entry>, name: Name, token: string, spender: string, serial: int)
  {
    exists e :: e in entries && Name(e.owner, e.delegating) == name && Allows(e, token, spender, serial)
  }

  predicate Asked(calls: seq<Call>, name: Name, token: string, spender: string, serial: int)
  {
    exists c :: c in calls && Name(c.owner, DelegateOf(c)) == name && Covers(c, token, spender, serial)
  }

  /** The transaction says what its caller asked for, owner by owner and delegate by delegate. */
  ghost predicate Faithful(calls: seq<Call>)
  {
    forall name, token, spender, serial ::
      Granted(Run(calls), name, token, spender, serial) <==> Asked(calls, name, token, spender, serial)
  }

  /** An entry carries the owner of the first approval for its token and spender, and the
      delegating spender of the last all-serials one. */
  lemma NameOfEntry(calls: seq<Call>, c: Call)
    requires c in calls
    ensures var own := CallsFor(calls, c.token, c.spender);
            && own != [] && c in own && own[0] in calls && own[0].token == c.token && own[0].spender == c.spender
            && Lookup(Run(calls), c.token, c.spender).Some?
            && Lookup(Run(calls), c.token, c.spender).value.owner == own[0].owner
            && Lookup(Run(calls), c.token, c.spender).value.delegating == LastDelegate(own)
  {
    var own := CallsFor(calls, c.token, c.spender);
    CallsForCovers(calls, c.token, c.spender, 0);
    assert c in own && own[0] in own;
    EntriesIndependent(calls, c.token, c.spender);
    FirstOwnerStays(own);
    LastDelegateStays(own);
  }

  lemma NameIfOne(calls: seq<Call>, c: Call)
    requires OneNameEach(calls) && c in calls
    ensures Lookup(Run(calls), c.token, c.spender).Some?
    ensures var e := Lookup(Run(calls), c.token, c.spender).value;
            e.owner == c.owner && e.delegating == DelegateOf(c)
  {
    NameOfEntry(calls, c);
    var own := CallsFor(calls, c.token, c.spender);
    CallsForCovers(calls, c.token, c.spender, 0);
    SameDelegates(own, DelegateOf(c));
  }

  lemma FaithfulIfOneName(calls: seq<Call>, name: Name, token: string, spender: string, serial: int)
    requires OneNameEach(calls)
    ensures Granted(Run(calls), name, token, spender, serial) <==> Asked(calls, name, token, spender, serial)
  {
    CoverageExact(calls, token, spender, serial);
    RunUnique(calls);
    LookupIsOnly(Run(calls), token, spender);
    hide Run, Lookup, OneNameEach;
    if c :| c in calls && Covers(c, token, spender, serial) {
      NameIfOne(calls, c);
    }
    forall c | c in calls && Covers(c, token, spender, serial)
      ensures Lookup(Run(calls), token, spender).Some?
      ensures Name(Lookup(Run(calls), token, spender).value.owner, Lookup(Run(calls), token, spender).value.delegating)
           == Name(c.owner, DelegateOf(c))
    {
      NameIfOne(calls, c);
    }
  }

  /** The transaction is faithful exactly when no token and spender are approved in two names:
      otherwise the first owner takes the others' approvals, and the last all-serials approval's
      delegating spender, or its lack of one, replaces the others. */
  lemma FaithfulExactly(calls: seq<Call>)
    ensures Faithful(calls) <==> OneNameEach(calls)
  {
    if OneNameEach(calls) {
      forall name, token, spender, serial
        ensures Granted(Run(calls), name, token, spender, serial) <==> Asked(calls, name, token, spender, serial)
      {
        FaithfulIfOneName(calls, name, token, spender, serial);
      }
    }
    if Faithful(calls) {
      forall c, d | c in calls && d in calls && c.token == d.token && c.spender == d.spender
        ensures c.owner == d.owner && DelegateOf(c) == DelegateOf(d)
      {
        EntryName(calls, c);
        EntryName(calls, d);
      }
    }
  }

  lemma EntryName(calls: seq<Call>, c: Call)
    requires c in calls && Faithful(calls)
    ensures Lookup(Run(calls), c.token, c.spender).Some?
    ensures var e := Lookup(Run(calls), c.token, c.spender).value;
            e.owner == c.owner && e.delegating == DelegateOf(c)
  {
    var serial := if c.Serial? then c.serial else 0;
    assert Covers(c, c.token, c.spender, serial);
    assert Asked(calls, Name(c.owner, DelegateOf(c)), c.token, c.spender, serial);
    assert Granted(Run(calls), Name(c.owner, DelegateOf(c)), c.token, c.spender, serial);
    RunUnique(calls);
    LookupIsOnly(Run(calls), c.token, c.spender);
  }

  /** No delegating spender is lost exactly when every one named is that of the last all-serials
      approval for its token and spender. */
  lemma DelegatesKept(calls: seq<Call>)
    ensures (forall c :: c in calls && DelegateOf(c).Some? ==>
               exists e :: e in Run(calls) && For(e, c.token, c.spender) && e.delegating == DelegateOf(c))
       <==> (forall c :: c in calls && DelegateOf(c).Some? ==>
               DelegateOf(c) == LastDelegate(CallsFor(calls, c.token, c.spender)))
  {
    RunUnique(calls);
    hide Run, UniqueEntries, LastDelegate, CallsFor;
    forall c | c in calls
      ensures (exists e :: e in Run(calls) && For(e, c.token, c.spender) && e.delegating == DelegateOf(c))
         <==> DelegateOf(c) == LastDelegate(CallsFor(calls, c.token, c.spender))
    {
      NameOfEntry(calls, c);
      LookupIsOnly(Run(calls), c.token, c.spender);
    }
  }

  /** A second all-serials approval without a delegating spender takes the first one's away. */
  lemma DelegateLost(token: string, spender: string, owner: Option<string>, delegating: string)
    ensures var calls := [AllSerials(token, spender, owner, Some(delegating)), AllSerials(token, spender, owner, None)];
            !Faithful(calls) && forall e :: e in Run(calls) ==> e.delegating == None
  {
    var c, d := AllSerials(token, spender, owner, Some(delegating)), AllSerials(token, spender, owner, None);
    var calls := [c, d];
    FaithfulExactly(calls);
    assert c in calls && d in calls;
    assert calls[..1] == [c] && [c][..0] == [];
    assert Run([c]) == [Made(c)];
  }
}
