/**
 * Rendering the traffic overlays (nezha/traffic-progress.js, `renderTrafficStats`):
 * build the name-to-usage table, then for each card either update the overlay
 * it already holds or create exactly one.
 *
 * The DOM is reduced to what rendering reads and writes: the overlays that
 * exist, each remembered with the card it was created for, whether it lies
 * inside that card (only then does the card's lookup find it), the server id
 * in its class name, and what it displays.
 */
module TrafficRender {
  import opened Common
  import opened TrafficFormat
  import opened TrafficData
  import opened TrafficLocate

  /** What an overlay shows. Dates are kept as the payload gives them. */
  datatype Display = Display(used: Scaled, total: Scaled, percent: real, color: Hsl, from: string, to: string)

  /** An injected `traffic-stats-<serverId>` element. */
  datatype Overlay = Overlay(card: NodeId, inside: bool, serverId: ServerId, display: Display)

  /** The `.server-name` element of a card: whether an element follows it, and whether its parent is the card itself. */
  datatype NameAnchor = NameAnchor(hasNextElement: bool, parentIsCard: bool)

  /** What the insertion code finds in a card: `.server-actions`, `.server-status`, `.server-info`, `.server-name`. */
  datatype InsertSite = InsertSite(hasActions: bool, hasStatus: bool, hasInfo: bool, serverName: Option<NameAnchor>)

  /** Where a new overlay ends up, or that building the insertion points throws. */
  datatype Placement = Inside | Outside | Throws

  /** A card as rendering sees it: its node, its name lookups and its insertion points. */
  datatype Card = Card(node: NodeId, firstMatches: seq<Option<string>>, texts: seq<string>, site: InsertSite)

  /** The display computed for one server's usage. */
  function DisplayOf(d: ServerData): (disp: Display)
    ensures disp.used == ScaleBytes(d.transfer) && disp.total == ScaleBytes(d.max)
    ensures disp.percent == Percentage(d.transfer, d.max) && disp.color == GradientColor(disp.percent)
    ensures disp.from == d.from && disp.to == d.to
  {
    var percent := Percentage(d.transfer, d.max);
    Display(ScaleBytes(d.transfer), ScaleBytes(d.max), percent, GradientColor(percent), d.from, d.to)
  }

  /**
   * The placement the code as written produces. The insertion points are built
   * eagerly, so a card without `.server-name` throws before any is tried. The
   * first three points and a following sibling lie inside the card; the last
   * point is `.server-name`'s parent, and the overlay goes after it, which is
   * outside the card when that parent is the card itself. (The closing
   * `appendChild` is reached only for a card detached from the document.)
   */
  function PlacementAsWritten(site: InsertSite): (p: Placement)
    ensures p == Throws <==> site.serverName.None?
    ensures p == Outside <==>
              site.serverName.Some? && !site.hasActions && !site.hasStatus && !site.hasInfo &&
              !site.serverName.value.hasNextElement && site.serverName.value.parentIsCard
  {
    if site.serverName.None? then Throws
    else if site.hasActions || site.hasStatus || site.hasInfo then Inside
    else if site.serverName.value.hasNextElement then Inside
    else if site.serverName.value.parentIsCard then Outside
    else Inside
  }

  /**
   * The placement the fallback chain evidently intends: every missing point is
   * skipped and the overlay always lands inside the card (at worst appended).
   */
  function PlacementFixed(site: InsertSite): Placement
  {
    Inside
  }

  predicate Matches(o: Overlay, node: NodeId, id: ServerId)
  {
    o.card == node && o.inside && o.serverId == id
  }

  /** Whether a card's `.traffic-stats-<id>` lookup finds something. */
  predicate Has(ov: seq<Overlay>, node: NodeId, id: ServerId)
  {
    exists i :: 0 <= i < |ov| && Matches(ov[i], node, id)
  }

  /** `container.querySelector('.traffic-stats-<id>')`: the first overlay inside the card with that id. */
  function FindOverlay(ov: seq<Overlay>, node: NodeId, id: ServerId): (r: Option<nat>)
    ensures r.None? <==> !Has(ov, node, id)
    ensures r.Some? ==> r.value < |ov| && Matches(ov[r.value], node, id) &&
                        forall k :: 0 <= k < r.value ==> !Matches(ov[k], node, id)
  {
    if ov == [] then None
    else if Matches(ov[0], node, id) then Some(0)
    else
      var r := FindOverlay(ov[1..], node, id);
      assert forall k :: 1 <= k < |ov| ==> ov[k] == ov[1..][k - 1];
      if r.None? then None else Some(r.value + 1)
  }

  /** One card's share of a render pass; None when it throws. */
  function RenderCard(ov: seq<Overlay>, card: Card, dm: map<string, ServerData>, place: InsertSite -> Placement): (r: Option<seq<Overlay>>)
    ensures r.None? <==>
              var name := ServerNameOf(card.firstMatches, card.texts);
              name.Some? && name.value in dm && !Has(ov, card.node, dm[name.value].id) && place(card.site) == Throws
    ensures r.Some? ==> |ov| <= |r.value| <= |ov| + 1
    ensures var name := ServerNameOf(card.firstMatches, card.texts);
            name.None? || name.value !in dm ==> r == Some(ov)
    ensures var name := ServerNameOf(card.firstMatches, card.texts);
            name.Some? && name.value in dm && Has(ov, card.node, dm[name.value].id) ==>
              var i := FindOverlay(ov, card.node, dm[name.value].id).value;
              r.Some? && |r.value| == |ov| && r.value[i] == ov[i].(display := DisplayOf(dm[name.value])) &&
              forall k :: 0 <= k < |ov| && k != i ==> r.value[k] == ov[k]
    ensures var name := ServerNameOf(card.firstMatches, card.texts);
            name.Some? && name.value in dm && !Has(ov, card.node, dm[name.value].id) && r.Some? ==>
              r.value == ov + [Overlay(card.node, place(card.site) == Inside, dm[name.value].id, DisplayOf(dm[name.value]))]
  {
    var name := ServerNameOf(card.firstMatches, card.texts);
    if name.None? || name.value !in dm then Some(ov)
    else
      var d := dm[name.value];
      match FindOverlay(ov, card.node, d.id)
      case Some(i) => Some(ov[i := ov[i].(display := DisplayOf(d))])
      case None =>
        match place(card.site)
        case Throws => None
        case Inside => Some(ov + [Overlay(card.node, true, d.id, DisplayOf(d))])
        case Outside => Some(ov + [Overlay(card.node, false, d.id, DisplayOf(d))])
  }

  /**
   * A render pass over the cards in order: the overlays afterwards and whether
   * the pass completed. A throw ends the pass; what was done before it stays.
   */
  function RenderCards(ov: seq<Overlay>, cards: seq<Card>, dm: map<string, ServerData>, place: InsertSite -> Placement): (r: (seq<Overlay>, bool))
    ensures |ov| <= |r.0| <= |ov| + |cards|
    ensures (forall k :: 0 <= k < |cards| ==> place(cards[k].site) != Throws) ==> r.1
    decreases |cards|
  {
    if cards == [] then (ov, true)
    else
      match RenderCard(ov, cards[0], dm, place)
      case None => (ov, false)
      case Some(ov') =>
        assert forall k :: 0 <= k < |cards| - 1 ==> cards[1..][k] == cards[k + 1];
        RenderCards(ov', cards[1..], dm, place)
  }

  /** No card of the page has its new overlay placed outside it. */
  predicate NoneOutside(cards: seq<Card>, place: InsertSite -> Placement)
  {
    forall k :: 0 <= k < |cards| ==> place(cards[k].site) != Outside
  }

  /** The overlays of `ov` keep their place, card, location and id in `ov'`; `ov'` may have more. */
  predicate Extends(ov: seq<Overlay>, ov': seq<Overlay>)
  {
    |ov| <= |ov'| &&
    forall i :: 0 <= i < |ov| ==> ov'[i].card == ov[i].card && ov'[i].inside == ov[i].inside && ov'[i].serverId == ov[i].serverId
  }

  lemma ExtendsHas(ov: seq<Overlay>, ov': seq<Overlay>, node: NodeId, id: ServerId)
    requires Extends(ov, ov') && Has(ov, node, id)
    ensures Has(ov', node, id)
  {
    var i :| 0 <= i < |ov| && Matches(ov[i], node, id);
    assert Matches(ov'[i], node, id);
  }

  lemma SameKeysHas(ov: seq<Overlay>, ov': seq<Overlay>, node: NodeId, id: ServerId)
    requires Extends(ov, ov') && |ov| == |ov'|
    ensures Has(ov', node, id) == Has(ov, node, id)
  {
    if Has(ov', node, id) {
      var i :| 0 <= i < |ov'| && Matches(ov'[i], node, id);
      assert Matches(ov[i], node, id);
    }
  }

  /** A card adds at most one overlay, and only when its lookup found none. */
  lemma RenderCardExtends(ov: seq<Overlay>, card: Card, dm: map<string, ServerData>, place: InsertSite -> Placement)
    requires RenderCard(ov, card, dm, place).Some?
    ensures Extends(ov, RenderCard(ov, card, dm, place).value)
    ensures |RenderCard(ov, card, dm, place).value| <= |ov| + 1
  {
  }

  /**
   * Rendering never removes an overlay, never moves one, and adds at most one
   * per card.
   */
  lemma {:induction false} RenderNeverRemoves(ov: seq<Overlay>, cards: seq<Card>, dm: map<string, ServerData>, place: InsertSite -> Placement)
    ensures Extends(ov, RenderCards(ov, cards, dm, place).0)
    ensures |RenderCards(ov, cards, dm, place).0| <= |ov| + |cards|
    decreases |cards|
  {
    if cards != [] {
      var step := RenderCard(ov, cards[0], dm, place);
      if step.Some? {
        RenderCardExtends(ov, cards[0], dm, place);
        RenderNeverRemoves(step.value, cards[1..], dm, place);
      }
    }
  }

  /** Whether a card's lookup would find its overlay, or the card has nothing to show. */
  predicate Settled(ov: seq<Overlay>, card: Card, dm: map<string, ServerData>)
  {
    var name := ServerNameOf(card.firstMatches, card.texts);
    name.None? || name.value !in dm || Has(ov, card.node, dm[name.value].id)
  }

  /** A card that would take the create path and throw. */
  predicate Stuck(ov: seq<Overlay>, card: Card, dm: map<string, ServerData>, place: InsertSite -> Placement)
  {
    !Settled(ov, card, dm) && place(card.site) == Throws
  }

  /** A state from which a pass adds nothing: every card up to the first stuck one is settled. */
  predicate Quiet(ov: seq<Overlay>, cards: seq<Card>, dm: map<string, ServerData>, place: InsertSite -> Placement)
    decreases |cards|
  {
    cards == [] || Stuck(ov, cards[0], dm, place) || (Settled(ov, cards[0], dm) && Quiet(ov, cards[1..], dm, place))
  }

  lemma {:induction false} QuietSameKeys(ov: seq<Overlay>, ov': seq<Overlay>, cards: seq<Card>, dm: map<string, ServerData>, place: InsertSite -> Placement)
    requires Extends(ov, ov') && |ov| == |ov'|
    requires Quiet(ov, cards, dm, place)
    ensures Quiet(ov', cards, dm, place)
    decreases |cards|
  {
    forall node, id ensures Has(ov', node, id) == Has(ov, node, id) {
      SameKeysHas(ov, ov', node, id);
    }
    if cards != [] && !Stuck(ov, cards[0], dm, place) {
      QuietSameKeys(ov, ov', cards[1..], dm, place);
    }
  }

  lemma {:induction false} QuietPassAddsNothing(ov: seq<Overlay>, cards: seq<Card>, dm: map<string, ServerData>, place: InsertSite -> Placement)
    requires Quiet(ov, cards, dm, place)
    ensures |RenderCards(ov, cards, dm, place).0| == |ov|
    decreases |cards|
  {
    if cards != [] && !Stuck(ov, cards[0], dm, place) {
      var step := RenderCard(ov, cards[0], dm, place);
      assert step.Some? && |step.value| == |ov| && Extends(ov, step.value);
      QuietSameKeys(ov, step.value, cards[1..], dm, place);
      QuietPassAddsNothing(step.value, cards[1..], dm, place);
    }
  }

  /**
   * After any pass whose placement never puts an overlay outside its card,
   * the state is quiet: a second pass with the same cards and data adds nothing.
   */
  lemma {:induction false} PassLeavesQuiet(ov: seq<Overlay>, cards: seq<Card>, dm: map<string, ServerData>, place: InsertSite -> Placement)
    requires NoneOutside(cards, place)
    ensures Quiet(RenderCards(ov, cards, dm, place).0, cards, dm, place)
    decreases |cards|
  {
    if cards != [] {
      var step := RenderCard(ov, cards[0], dm, place);
      if step.None? {
        assert Stuck(ov, cards[0], dm, place);
      } else {
        var result := RenderCards(ov, cards, dm, place).0;
        assert forall k :: 0 <= k < |cards| - 1 ==> cards[1..][k] == cards[k + 1];
        PassLeavesQuiet(step.value, cards[1..], dm, place);
        RenderNeverRemoves(step.value, cards[1..], dm, place);
        var name := ServerNameOf(cards[0].firstMatches, cards[0].texts);
        if name.Some? && name.value in dm {
          var d := dm[name.value];
          if FindOverlay(ov, cards[0].node, d.id).Some? {
            RenderCardExtends(ov, cards[0], dm, place);
            SameKeysHas(ov, step.value, cards[0].node, d.id);
          } else {
            assert place(cards[0].site) == Inside;
            assert Matches(step.value[|ov|], cards[0].node, d.id);
          }
          ExtendsHas(step.value, result, cards[0].node, d.id);
        }
      }
    }
  }

  /**
   * Render idempotence: when no card of the page gets its overlay placed
   * outside it, a second pass with the same data and cards adds no overlay.
   */
  lemma RenderTwiceAddsNothing(ov: seq<Overlay>, cards: seq<Card>, dm: map<string, ServerData>, place: InsertSite -> Placement)
    requires NoneOutside(cards, place)
    ensures var once := RenderCards(ov, cards, dm, place).0;
            |RenderCards(once, cards, dm, place).0| == |once|
  {
    PassLeavesQuiet(ov, cards, dm, place);
    QuietPassAddsNothing(RenderCards(ov, cards, dm, place).0, cards, dm, place);
  }

  /**
   * The code as written is idempotent on every page where no card has a
   * `.server-name` as the last direct child and no other anchor.
   */
  lemma AsWrittenRenderTwiceAddsNothing(ov: seq<Overlay>, cards: seq<Card>, dm: map<string, ServerData>)
    requires forall k :: 0 <= k < |cards| ==>
               var site := cards[k].site;
               site.hasActions || site.hasStatus || site.hasInfo || site.serverName.None? ||
               site.serverName.value.hasNextElement || !site.serverName.value.parentIsCard
    ensures var once := RenderCards(ov, cards, dm, PlacementAsWritten).0;
            |RenderCards(once, cards, dm, PlacementAsWritten).0| == |once|
  {
    RenderTwiceAddsNothing(ov, cards, dm, PlacementAsWritten);
  }

  /**
   * The card's lookup finds an overlay for its server that displays that
   * server's data, or the card has nothing to show.
   */
  predicate Shows(ov: seq<Overlay>, card: Card, dm: map<string, ServerData>)
  {
    var name := ServerNameOf(card.firstMatches, card.texts);
    name.None? || name.value !in dm ||
    var f := FindOverlay(ov, card.node, dm[name.value].id);
    f.Some? && ov[f.value].display == DisplayOf(dm[name.value])
  }

  /** Keeping every overlay's card, location and id keeps what each lookup finds. */
  lemma FindSame(ov: seq<Overlay>, ov': seq<Overlay>, node: NodeId, id: ServerId)
    requires Extends(ov, ov') && Has(ov, node, id)
    ensures FindOverlay(ov', node, id) == FindOverlay(ov, node, id)
  {
    var i := FindOverlay(ov, node, id).value;
    forall k | 0 <= k < i
      ensures !Matches(ov'[k], node, id)
    {
      assert !Matches(ov[k], node, id);
    }
    FirstMatch(ov', node, id, i);
  }

  /** A matching position with no match before it is the one the lookup finds. */
  lemma FirstMatch(ov: seq<Overlay>, node: NodeId, id: ServerId, i: nat)
    requires i < |ov| && Matches(ov[i], node, id)
    requires forall k :: 0 <= k < i ==> !Matches(ov[k], node, id)
    ensures FindOverlay(ov, node, id) == Some(i)
  {
    var f := FindOverlay(ov, node, id);
    assert f.Some?;
    assert !(f.value > i);
  }

  /** Handling a card of another node leaves what a card shows as it was. */
  lemma OtherCardKeepsShows(ov: seq<Overlay>, c: Card, card: Card, dm: map<string, ServerData>, place: InsertSite -> Placement)
    requires Shows(ov, c, dm) && c.node != card.node && RenderCard(ov, card, dm, place).Some?
    ensures Shows(RenderCard(ov, card, dm, place).value, c, dm)
  {
    var name := ServerNameOf(c.firstMatches, c.texts);
    if name.Some? && name.value in dm {
      var ov' := RenderCard(ov, card, dm, place).value;
      var id := dm[name.value].id;
      RenderCardExtends(ov, card, dm, place);
      FindSame(ov, ov', c.node, id);
      var i := FindOverlay(ov, c.node, id).value;
      assert ov'[i].display == ov[i].display;
    }
  }

  /** Handling a card without throwing, and placing inside it, makes it show its data. */
  lemma CardShows(ov: seq<Overlay>, card: Card, dm: map<string, ServerData>, place: InsertSite -> Placement)
    requires RenderCard(ov, card, dm, place).Some? && place(card.site) != Outside
    ensures Shows(RenderCard(ov, card, dm, place).value, card, dm)
  {
    var name := ServerNameOf(card.firstMatches, card.texts);
    if name.Some? && name.value in dm {
      var ov' := RenderCard(ov, card, dm, place).value;
      var id := dm[name.value].id;
      if Has(ov, card.node, id) {
        RenderCardExtends(ov, card, dm, place);
        FindSame(ov, ov', card.node, id);
      } else {
        assert Matches(ov'[|ov|], card.node, id);
      }
    }
  }

  /** The rest of a pass over cards of other nodes leaves what a card shows as it was. */
  lemma {:induction false} PassKeepsShows(ov: seq<Overlay>, c: Card, cards: seq<Card>, dm: map<string, ServerData>, place: InsertSite -> Placement)
    requires Shows(ov, c, dm) && forall k :: 0 <= k < |cards| ==> cards[k].node != c.node
    ensures Shows(RenderCards(ov, cards, dm, place).0, c, dm)
    decreases |cards|
  {
    if cards != [] {
      var step := RenderCard(ov, cards[0], dm, place);
      if step.Some? {
        OtherCardKeepsShows(ov, c, cards[0], dm, place);
        assert forall k :: 0 <= k < |cards| - 1 ==> cards[1..][k] == cards[k + 1];
        PassKeepsShows(step.value, c, cards[1..], dm, place);
      }
    }
  }

  /**
   * After a completed pass over cards of distinct nodes, none placed outside,
   * every card whose name has data finds its overlay, and that overlay displays
   * the server's data.
   */
  lemma {:induction false} PassShowsData(ov: seq<Overlay>, cards: seq<Card>, dm: map<string, ServerData>, place: InsertSite -> Placement)
    requires NoneOutside(cards, place) && RenderCards(ov, cards, dm, place).1
    requires forall a, b :: 0 <= a < b < |cards| ==> cards[a].node != cards[b].node
    ensures forall k :: 0 <= k < |cards| ==> Shows(RenderCards(ov, cards, dm, place).0, cards[k], dm)
    decreases |cards|
  {
    if cards != [] {
      var ov' := RenderCard(ov, cards[0], dm, place).value;
      var rest := cards[1..];
      assert forall k :: 0 <= k < |cards| - 1 ==> rest[k] == cards[k + 1];
      CardShows(ov, cards[0], dm, place);
      PassKeepsShows(ov', cards[0], rest, dm, place);
      PassShowsData(ov', rest, dm, place);
    }
  }

  /** A card named "node-1" with a `.server-actions` anchor. */
  function AnchoredCard(): Card
  {
    Card(7, [Some("node-1")], [], InsertSite(true, false, false, Some(NameAnchor(false, true))))
  }

  /**
   * The node-1 example: 500 B used of 1000 B shows "500 B / 1000 B", 50 %, in
   * the orange-red hsl(22.4, 82, 53.5), and a second pass only refreshes it.
   */
  lemma NodeOneShown()
    ensures var dm := map["node-1" := NodeOneData()];
            var once := RenderCards([], [AnchoredCard()], dm, PlacementAsWritten);
            once.1 && |once.0| == 1 && once.0[0].card == 7 && once.0[0].inside && once.0[0].serverId == "1" &&
            once.0[0].display == Display(Scaled(500.0, "B", 0), Scaled(1000.0, "B", 0), 50.0, Hsl(22.4, 82.0, 53.5), "2024-01-01", "2024-02-01") &&
            RenderCards(once.0, [AnchoredCard()], dm, PlacementAsWritten).0 == once.0
  {
    assert Trim("node-1") == "node-1";
    ScaleBytesExamples();
    assert UnitIndex(1000.0) == 0 by {
      UnitIndexUnique(1000.0, 0);
    }
    assert Percentage(500.0, 1000.0) == 50.0 by { PercentageExamples(); }
  }

  /** A card named "node-1" whose `.server-name` sits directly in it, last, with no other anchor. */
  function ExposedCard(): Card
  {
    Card(7, [Some("node-1")], [], InsertSite(false, false, false, Some(NameAnchor(false, true))))
  }

  function NodeOneData(): ServerData
  {
    ServerData("1", 500.0, 1000.0, None, "2024-01-01", "2024-02-01")
  }

  /**
   * As written: for such a card the overlay is inserted after the card, the
   * card's own lookup never finds it, and every pass adds another one.
   */
  lemma OutsidePlacementDuplicates()
    ensures var dm := map["node-1" := NodeOneData()];
            var once := RenderCards([], [ExposedCard()], dm, PlacementAsWritten).0;
            |once| == 1 && |RenderCards(once, [ExposedCard()], dm, PlacementAsWritten).0| == 2
  {
    var dm := map["node-1" := NodeOneData()];
    assert NameHit(Some("node-1")) by { assert Trim("node-1") == "node-1"; }
    assert ServerNameOf([Some("node-1")], []) == Some("node-1") by { assert Trim("node-1") == "node-1"; }
    var once := RenderCards([], [ExposedCard()], dm, PlacementAsWritten).0;
    assert once == [Overlay(7, false, "1", DisplayOf(NodeOneData()))];
    assert !Has(once, 7, "1");
  }

  /** A card whose name comes from `p.font-medium` but that has no `.server-name` element. */
  function BareCard(): Card
  {
    Card(3, [Some("node-2")], [], InsertSite(true, false, false, None))
  }

  /**
   * As written: a card without `.server-name` throws on the create path and the
   * pass ends there, so a later, well-formed card gets no overlay.
   */
  lemma MissingServerNameAbortsPass()
    ensures var dm := map["node-1" := NodeOneData(), "node-2" := NodeOneData().(id := "2")];
            RenderCards([], [BareCard(), ExposedCard().(site := InsertSite(true, false, false, Some(NameAnchor(true, false))))], dm, PlacementAsWritten)
              == ([], false)
  {
    assert Trim("node-2") == "node-2";
  }

  /** Corrected placement: rendering twice adds nothing, for every state, card list and payload. */
  lemma FixedRenderIdempotent(ov: seq<Overlay>, cards: seq<Card>, dm: map<string, ServerData>)
    ensures var once := RenderCards(ov, cards, dm, PlacementFixed).0;
            |RenderCards(once, cards, dm, PlacementFixed).0| == |once|
  {
    RenderTwiceAddsNothing(ov, cards, dm, PlacementFixed);
  }

  /**
   * Corrected placement: the pass always completes, and every card whose name
   * is in the table then holds an overlay for that server.
   */
  lemma {:induction false} FixedRenderCoversEveryCard(ov: seq<Overlay>, cards: seq<Card>, dm: map<string, ServerData>)
    ensures RenderCards(ov, cards, dm, PlacementFixed).1
    ensures forall k :: 0 <= k < |cards| ==> Settled(RenderCards(ov, cards, dm, PlacementFixed).0, cards[k], dm)
  {
    PassLeavesQuiet(ov, cards, dm, PlacementFixed);
    QuietWithoutThrowSettles(RenderCards(ov, cards, dm, PlacementFixed).0, cards, dm);
    FixedNeverThrows(ov, cards, dm);
  }

  lemma {:induction false} QuietWithoutThrowSettles(ov: seq<Overlay>, cards: seq<Card>, dm: map<string, ServerData>)
    requires Quiet(ov, cards, dm, PlacementFixed)
    ensures forall k :: 0 <= k < |cards| ==> Settled(ov, cards[k], dm)
    decreases |cards|
  {
    if cards != [] {
      QuietWithoutThrowSettles(ov, cards[1..], dm);
      assert forall k :: 1 <= k < |cards| ==> cards[k] == cards[1..][k - 1];
    }
  }

  lemma {:induction false} FixedNeverThrows(ov: seq<Overlay>, cards: seq<Card>, dm: map<string, ServerData>)
    ensures RenderCards(ov, cards, dm, PlacementFixed).1
    decreases |cards|
  {
    if cards != [] {
      var step := RenderCard(ov, cards[0], dm, PlacementFixed);
      assert step.Some?;
      FixedNeverThrows(step.value, cards[1..], dm);
    }
  }

  /** The rendering state: the overlays in the page and the name-to-id table kept for debugging. */
  class Renderer {
    var serverNameToIdMap: map<string, ServerId>
    var overlays: seq<Overlay>

    constructor ()
      ensures serverNameToIdMap == map[] && overlays == []
    {
      serverNameToIdMap := map[];
      overlays := [];
    }

    /**
     * Step 1 of `renderTrafficStats`: the nested loops over cycles and servers.
     * The table is rebuilt from scratch; the name-to-id table only gains or
     * overwrites pairs.
     */
    method BuildServerDataMap(trafficData: seq<Cycle>) returns (serverDataMap: map<string, ServerData>)
      modifies this`serverNameToIdMap
      ensures serverDataMap == ServerDataMap(trafficData)
      ensures serverNameToIdMap == old(serverNameToIdMap) + IdsOf(serverDataMap)
    {
      serverDataMap := map[];
      var c := 0;
      while c < |trafficData|
        invariant 0 <= c <= |trafficData|
        invariant serverDataMap == Fold(Entries(trafficData[..c]))
        invariant serverNameToIdMap == old(serverNameToIdMap) + IdsOf(serverDataMap)
      {
        EntriesStep(trafficData, c);
        serverDataMap := AddCycle(trafficData[c], serverDataMap, Entries(trafficData[..c]), old(serverNameToIdMap));
        c := c + 1;
      }
      assert trafficData[..|trafficData|] == trafficData;
    }

    /** The inner loop of step 1: the servers of one cycle, skipped as a whole when it is not usable. */
    method AddCycle(cycle: Cycle, serverDataMap: map<string, ServerData>, ghost before: seq<Entry>, ghost base: map<string, ServerId>)
      returns (serverDataMap': map<string, ServerData>)
      requires serverDataMap == Fold(before)
      requires serverNameToIdMap == base + IdsOf(serverDataMap)
      modifies this`serverNameToIdMap
      ensures serverDataMap' == Fold(before + CycleEntries(cycle, ServerCount(cycle)))
      ensures serverNameToIdMap == base + IdsOf(serverDataMap')
    {
      serverDataMap' := serverDataMap;
      if !(cycle.serverNames.Some? && cycle.transfer.Some?) {
        assert before + CycleEntries(cycle, ServerCount(cycle)) == before;
        return;
      }
      var names := cycle.serverNames.value;
      var k := 0;
      assert before + CycleEntries(cycle, 0) == before;
      while k < |names|
        invariant 0 <= k <= |names|
        invariant serverDataMap' == Fold(before + CycleEntries(cycle, k))
        invariant serverNameToIdMap == base + IdsOf(serverDataMap')
      {
        serverDataMap' := AddServer(cycle, k, serverDataMap', before, base);
        k := k + 1;
      }
    }

    /** One server of a usable cycle: recorded when its entry is complete. */
    method AddServer(cycle: Cycle, k: nat, serverDataMap: map<string, ServerData>, ghost before: seq<Entry>, ghost base: map<string, ServerId>)
      returns (serverDataMap': map<string, ServerData>)
      requires cycle.serverNames.Some? && cycle.transfer.Some? && k < |cycle.serverNames.value|
      requires serverDataMap == Fold(before + CycleEntries(cycle, k))
      requires serverNameToIdMap == base + IdsOf(serverDataMap)
      modifies this`serverNameToIdMap
      ensures serverDataMap' == Fold(before + CycleEntries(cycle, k + 1))
      ensures serverNameToIdMap == base + IdsOf(serverDataMap')
    {
      CycleEntriesStep(cycle, k);
      var (serverId, serverName) := cycle.serverNames.value[k];
      var entry := EntryAt(cycle, k);
      serverDataMap' := serverDataMap;
      if entry.Some? {
        var data := ServerData(serverId, cycle.transfer.value[serverId], cycle.max.value, cycle.name, cycle.from.value, cycle.to.value);
        assert entry.value == Entry(serverName.value, data);
        assert before + CycleEntries(cycle, k + 1) == (before + CycleEntries(cycle, k)) + [entry.value];
        FoldAppend(before + CycleEntries(cycle, k), entry.value);
        IdsOfUpdate(base, serverDataMap, entry.value);
        serverDataMap' := serverDataMap[serverName.value := data];
        serverNameToIdMap := serverNameToIdMap[serverName.value := serverId];
      } else {
        assert CycleEntries(cycle, k + 1) == CycleEntries(cycle, k);
      }
    }

    /**
     * `renderTrafficStats` as written. `cards` are the containers
     * `getServerCardContainers` returned, each with what the lookups inside it
     * return. The result is false when the pass threw (the exception is caught
     * by the caller); the overlays are then as the pass left them.
     */
    method RenderTrafficStats(trafficData: seq<Cycle>, cards: seq<Card>) returns (completed: bool)
      modifies this
      ensures serverNameToIdMap == old(serverNameToIdMap) + IdsOf(ServerDataMap(trafficData))
      ensures (overlays, completed) == RenderCards(old(overlays), cards, ServerDataMap(trafficData), PlacementAsWritten)
    {
      var serverDataMap := BuildServerDataMap(trafficData);
      var i := 0;
      while i < |cards|
        invariant 0 <= i <= |cards|
        invariant serverNameToIdMap == old(serverNameToIdMap) + IdsOf(serverDataMap)
        invariant RenderCards(old(overlays), cards, serverDataMap, PlacementAsWritten)
                  == RenderCards(overlays, cards[i..], serverDataMap, PlacementAsWritten)
      {
        var card := cards[i];
        assert cards[i..][0] == card && cards[i..][1..] == cards[i + 1..];
        var serverName := GetServerName(card.firstMatches, card.texts);
        if serverName.Some? && serverName.value in serverDataMap {
          var serverData := serverDataMap[serverName.value];
          var usedFormatted := FormatFileSize(serverData.transfer);
          var totalFormatted := FormatFileSize(serverData.max);
          var percentage := Percentage(serverData.transfer, serverData.max);
          var progressColor := GradientColor(percentage);
          var display := Display(usedFormatted, totalFormatted, percentage, progressColor, serverData.from, serverData.to);
          var trafficElement := FindOverlay(overlays, card.node, serverData.id);
          if trafficElement.None? {
            var placement := PlacementAsWritten(card.site);
            if placement == Throws {
              return false;
            }
            overlays := overlays + [Overlay(card.node, placement == Inside, serverData.id, display)];
          } else {
            var at := trafficElement.value;
            overlays := overlays[at := overlays[at].(display := display)];
          }
        }
        i := i + 1;
      }
      completed := true;
    }
  }
}
