/**
 * The usage payload of the traffic overlay and the name-to-usage table built
 * from it (nezha/traffic-progress.js, first step of `renderTrafficStats`).
 *
 * The payload's `cycle_transfer_stats` object is modelled as the sequence of its
 * cycles in enumeration order (the cycle ids themselves are never read); each
 * cycle's `server_name` object as the sequence of its (server id, name) pairs in
 * enumeration order. A JSON field that is absent or null is `None`.
 */
module TrafficData {
  import opened Common

  type ServerId = string

  /** One billing cycle of the payload. */
  datatype Cycle = Cycle(
    serverNames: Option<seq<(ServerId, Option<string>)>>,
    transfer: Option<map<ServerId, real>>,
    max: Option<real>,
    from: Option<string>,
    to: Option<string>,
    name: Option<string>)

  /** The usage recorded for one server: what the overlay displays. */
  datatype ServerData = ServerData(id: ServerId, transfer: real, max: real, name: Option<string>, from: string, to: string)

  /** An accepted (server name, usage) pair, in the order the loops meet them. */
  datatype Entry = Entry(serverName: string, data: ServerData)

  /** JavaScript truthiness of the fields that are tested. */
  predicate TruthyString(s: Option<string>) { s.Some? && s.value != "" }
  predicate TruthyNumber(x: Option<real>) { x.Some? && x.value != 0.0 }

  /** A cycle lacking `server_name` or `transfer` is skipped as a whole. */
  predicate Usable(c: Cycle) { c.serverNames.Some? && c.transfer.Some? }

  function ServerCount(c: Cycle): nat
  {
    if c.serverNames.Some? then |c.serverNames.value| else 0
  }

  /**
   * The entry contributed by the k-th server of a usable cycle: present exactly
   * when the name is truthy, the server has a `transfer` value (0 included) and
   * the cycle's `max`, `from` and `to` are truthy (a `max` of 0 is rejected).
   */
  function EntryAt(c: Cycle, k: nat): (e: Option<Entry>)
    requires Usable(c) && k < ServerCount(c)
    ensures e.Some? <==>
              var (id, name) := c.serverNames.value[k];
              TruthyString(name) && id in c.transfer.value && TruthyNumber(c.max) && TruthyString(c.from) && TruthyString(c.to)
    ensures e.Some? ==> e.value.serverName == c.serverNames.value[k].1.value && e.value.data.id == c.serverNames.value[k].0
  {
    var (id, name) := c.serverNames.value[k];
    if TruthyString(name) && id in c.transfer.value && TruthyNumber(c.max) && TruthyString(c.from) && TruthyString(c.to) then
      Some(Entry(name.value, ServerData(id, c.transfer.value[id], c.max.value, c.name, c.from.value, c.to.value)))
    else None
  }

  function AsSeq<T>(o: Option<T>): seq<T>
  {
    if o.Some? then [o.value] else []
  }

  /** The entries of the first k servers of a cycle, in loop order. */
  function CycleEntries(c: Cycle, k: nat): seq<Entry>
    requires k <= ServerCount(c)
  {
    if !Usable(c) || k == 0 then [] else CycleEntries(c, k - 1) + AsSeq(EntryAt(c, k - 1))
  }

  /** The entries of all cycles, in loop order. */
  function Entries(cs: seq<Cycle>): seq<Entry>
  {
    if cs == [] then [] else Entries(cs[..|cs| - 1]) + CycleEntries(cs[|cs| - 1], ServerCount(cs[|cs| - 1]))
  }

  /** Setting the entries one after another into an empty table. */
  function Fold(es: seq<Entry>): map<string, ServerData>
  {
    if es == [] then map[] else Fold(es[..|es| - 1])[es[|es| - 1].serverName := es[|es| - 1].data]
  }

  /** The table `serverDataMap` that rendering builds from a payload. */
  function ServerDataMap(cs: seq<Cycle>): map<string, ServerData>
  {
    Fold(Entries(cs))
  }

  /** The name-to-id pairs a table carries; `serverNameToIdMap` receives these. */
  function IdsOf(m: map<string, ServerData>): (ids: map<string, ServerId>)
    ensures ids.Keys == m.Keys
    ensures forall n :: n in m ==> ids[n] == m[n].id
  {
    map n | n in m :: m[n].id
  }

  /**
   * Last write wins: a name is in the table exactly when some entry carries it,
   * and then it maps to the data of the LAST such entry.
   */
  lemma {:induction false} FoldLastWriteWins(es: seq<Entry>, n: string)
    ensures n in Fold(es) <==> exists i :: 0 <= i < |es| && es[i].serverName == n
    ensures n in Fold(es) ==>
              exists i :: 0 <= i < |es| && es[i].serverName == n && Fold(es)[n] == es[i].data &&
                forall j :: i < j < |es| ==> es[j].serverName != n
  {
    if es != [] {
      var init := es[..|es| - 1];
      var last := es[|es| - 1];
      FoldLastWriteWins(init, n);
      assert forall i :: 0 <= i < |init| ==> init[i] == es[i];
      if last.serverName == n {
        assert es[|es| - 1].serverName == n;
      } else if n in Fold(es) {
        var i :| 0 <= i < |init| && init[i].serverName == n && Fold(init)[n] == init[i].data &&
                 forall j :: i < j < |init| ==> init[j].serverName != n;
        assert es[i].serverName == n && Fold(es)[n] == es[i].data;
      }
    }
  }

  lemma FoldAppend(es: seq<Entry>, e: Entry)
    ensures Fold(es + [e]) == Fold(es)[e.serverName := e.data]
  {
    assert (es + [e])[..|es|] == es;
  }

  lemma {:induction false} CycleEntriesStep(c: Cycle, k: nat)
    requires Usable(c) && k < ServerCount(c)
    ensures CycleEntries(c, k + 1) == CycleEntries(c, k) + AsSeq(EntryAt(c, k))
  {
  }

  lemma EntriesStep(cs: seq<Cycle>, i: nat)
    requires i < |cs|
    ensures Entries(cs[..i + 1]) == Entries(cs[..i]) + CycleEntries(cs[i], ServerCount(cs[i]))
  {
    assert cs[..i + 1][..i] == cs[..i];
  }

  /** Every accepted entry of one cycle comes from one of its servers, and vice versa. */
  lemma {:induction false} CycleEntriesExactly(c: Cycle, k: nat, e: Entry)
    requires k <= ServerCount(c)
    ensures e in CycleEntries(c, k) <==> Usable(c) && exists j :: 0 <= j < k && EntryAt(c, j) == Some(e)
  {
    if Usable(c) && k > 0 {
      CycleEntriesExactly(c, k - 1, e);
    }
  }

  /**
   * The entries of a payload are exactly the accepted (cycle, server) pairs:
   * nothing else enters the table.
   */
  lemma {:induction false} EntriesExactly(cs: seq<Cycle>, e: Entry)
    ensures e in Entries(cs) <==>
              exists i, j :: 0 <= i < |cs| && Usable(cs[i]) && 0 <= j < ServerCount(cs[i]) && EntryAt(cs[i], j) == Some(e)
  {
    if cs != [] {
      var init := cs[..|cs| - 1];
      var c := cs[|cs| - 1];
      EntriesExactly(init, e);
      CycleEntriesExactly(c, ServerCount(c), e);
      assert forall i :: 0 <= i < |init| ==> init[i] == cs[i];
      if e in Entries(cs) {
        if e in Entries(init) {
          var i, j :| 0 <= i < |init| && Usable(init[i]) && 0 <= j < ServerCount(init[i]) && EntryAt(init[i], j) == Some(e);
          assert cs[i] == init[i];
        } else {
          var j :| 0 <= j < ServerCount(c) && EntryAt(c, j) == Some(e);
          assert cs[|cs| - 1] == c;
        }
      } else {
        forall i, j | 0 <= i < |cs| && Usable(cs[i]) && 0 <= j < ServerCount(cs[i])
          ensures EntryAt(cs[i], j) != Some(e)
        {
          if i < |init| {
            assert cs[i] == init[i];
          }
        }
      }
    }
  }

  /** The name-to-id table after more entries: old pairs survive unless overwritten. */
  lemma IdsOfUpdate(base: map<string, ServerId>, m: map<string, ServerData>, e: Entry)
    ensures base + IdsOf(m[e.serverName := e.data]) == (base + IdsOf(m))[e.serverName := e.data.id]
  {
  }

  /** A payload whose single cycle reports 0 bytes used is accepted; one whose `max` is 0 is not. */
  lemma ZeroTransferVersusZeroMax(id: ServerId, name: string, from: string, to: string, max: real)
    requires name != "" && from != "" && to != ""
    ensures var c := Cycle(Some([(id, Some(name))]), Some(map[id := 0.0]), Some(max), Some(from), Some(to), None);
            name in ServerDataMap([c]) <==> max != 0.0
  {
    var c := Cycle(Some([(id, Some(name))]), Some(map[id := 0.0]), Some(max), Some(from), Some(to), None);
    assert [c][..0] == [];
    assert Entries([c]) == CycleEntries(c, 1) == AsSeq(EntryAt(c, 0));
    if max != 0.0 {
      assert Entries([c]) == [Entry(name, ServerData(id, 0.0, max, None, from, to))];
      assert Fold(Entries([c])) == Fold([])[name := ServerData(id, 0.0, max, None, from, to)];
    } else {
      assert Entries([c]) == [];
    }
  }
}
