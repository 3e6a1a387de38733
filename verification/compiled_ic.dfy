/** Release of the inline-cache holder (`CompiledICHolder`) that a virtual
    call site may reference. A site is in the holder state when its call
    goes to an icholder entry; the holder itself is the data word of the
    move that loads the cached value. Release is deferred: the holder is
    appended to the queue that `InlineCacheBuffer` drains at a safepoint. */
module CompiledIC {
  import opened Basics

  /** A virtual call site: the current destination of its call instruction
      and the data word of its cached-value move. */
  datatype VirtualCall = VirtualCall(destination: Address, cachedValue: Word)

  /** `is_icholder_call_site`: the call goes to one of `icholderEntries`, the
      entry points the runtime recognises as icholder entries. */
  predicate IsICHolderCallSite(site: VirtualCall, icholderEntries: set<Address>)
  {
    site.destination in icholderEntries
  }

  /** `cleanup_call_site`: a site in the holder state queues its holder for
      release; any other site leaves the queue alone. */
  function CleanupCallSite(site: VirtualCall, icholderEntries: set<Address>, queue: seq<Word>): (q: seq<Word>)
    ensures queue <= q
    ensures |q| <= |queue| + 1
    ensures |q| == |queue| + 1 ==> q[|queue|] == site.cachedValue
  {
    if site.destination in icholderEntries then queue + [site.cachedValue] else queue
  }

  /** Cleanup acts exactly when the side-effect-free query says the site is
      in the holder state. */
  lemma CleanupActsIffHolder(site: VirtualCall, icholderEntries: set<Address>, queue: seq<Word>)
    ensures CleanupCallSite(site, icholderEntries, queue) != queue <==> IsICHolderCallSite(site, icholderEntries)
    ensures IsICHolderCallSite(site, icholderEntries) ==>
      CleanupCallSite(site, icholderEntries, queue) == queue + [site.cachedValue]
  {
  }

  /** Cleanup of a sequence of sites, one after the other. */
  function CleanupAll(sites: seq<VirtualCall>, icholderEntries: set<Address>, queue: seq<Word>): seq<Word>
    decreases |sites|
  {
    if sites == [] then queue
    else CleanupAll(sites[1..], icholderEntries, CleanupCallSite(sites[0], icholderEntries, queue))
  }

  /** Number of sites in the holder state. */
  function HolderCount(sites: seq<VirtualCall>, icholderEntries: set<Address>): nat
    decreases |sites|
  {
    if sites == [] then 0
    else (if IsICHolderCallSite(sites[0], icholderEntries) then 1 else 0) + HolderCount(sites[1..], icholderEntries)
  }

  /** A value in a suffix of `q` is in every longer suffix. */
  lemma InLongerSuffix(q: seq<Word>, a: nat, b: nat, x: Word)
    requires a <= b <= |q| && x in q[b..]
    ensures x in q[a..]
  {
    var k :| 0 <= k < |q[b..]| && q[b..][k] == x;
    assert q[a..][b - a + k] == x;
  }

  /** After cleaning up a sequence of sites, the queue keeps what it held,
      gained one entry per site in the holder state, holds the holder of
      every such site and nothing that is not the holder of such a site. */
  lemma {:induction false} CleanupAllQueuesHolders(sites: seq<VirtualCall>, icholderEntries: set<Address>, queue: seq<Word>)
    ensures var q := CleanupAll(sites, icholderEntries, queue);
      && queue <= q
      && |q| == |queue| + HolderCount(sites, icholderEntries)
      && (forall i :: 0 <= i < |sites| && IsICHolderCallSite(sites[i], icholderEntries) ==> sites[i].cachedValue in q[|queue|..])
      && (forall j :: |queue| <= j < |q| ==>
            exists i :: 0 <= i < |sites| && IsICHolderCallSite(sites[i], icholderEntries) && sites[i].cachedValue == q[j])
    decreases |sites|
  {
    if sites != [] {
      var q1 := CleanupCallSite(sites[0], icholderEntries, queue);
      var q := CleanupAll(sites, icholderEntries, queue);
      assert q == CleanupAll(sites[1..], icholderEntries, q1);
      CleanupAllQueuesHolders(sites[1..], icholderEntries, q1);
      assert queue <= q;
      forall i | 0 <= i < |sites| && IsICHolderCallSite(sites[i], icholderEntries)
        ensures sites[i].cachedValue in q[|queue|..]
      {
        if i == 0 {
          assert q[|queue|..][0] == q1[|queue|];
        } else {
          assert sites[1..][i - 1] == sites[i];
          InLongerSuffix(q, |queue|, |q1|, sites[i].cachedValue);
        }
      }
      forall j | |queue| <= j < |q|
        ensures exists i :: 0 <= i < |sites| && IsICHolderCallSite(sites[i], icholderEntries) && sites[i].cachedValue == q[j]
      {
        if j < |q1| {
          assert q[j] == q1[j] == sites[0].cachedValue;
        } else {
          var i :| 0 <= i < |sites[1..]| && IsICHolderCallSite(sites[1..][i], icholderEntries) && sites[1..][i].cachedValue == q[j];
          assert sites[i + 1] == sites[1..][i];
        }
      }
    }
  }
}
