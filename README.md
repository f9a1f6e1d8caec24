# Nezha dashboard and page-effect scripts, modelled in Dafny

This project models the browser scripts that decorate a Nezha server-monitoring
dashboard and a general web page:

- **Traffic progress overlay** (`nezha/traffic-progress.js`). It fetches the
  cycle-transfer statistics and caches them. It builds a table from server name
  to usage and formats byte counts with binary units. It computes the usage
  percentage and maps it to an HSL colour (green, then orange, then red). It
  finds each server card on the page by its name, then either updates the
  card's progress overlay or creates one next to a suitable anchor. Its
  configuration is the defaults merged with the user's settings.
- **Uptime display** (`general/updata.js`). It splits the time since the site
  started into days, hours, minutes and seconds. It chooses the element that
  receives the display from a chain of fallbacks.
- **Network panel fix** (`nezha/network.js`). It watches two dashboard panels.
  On the rising edge of "a panel is visible" it hides a section, clicks a
  button once and schedules a swap of the two panels. On the falling edge it
  re-arms the click. The swap moves panel 4 in front of panel 3 with two
  `insertBefore` calls.
- **Line-dust cursor trail** (`general/moveline.js`). Particles age by one
  step per frame and are removed once their life span is negative.
- **Click hearts** (`general/clickaixin.js`). A click spawns a heart. Each
  frame removes the hearts that have faded and lifts and fades the others. The
  click handler chains to any handler installed before it.

The pure parts are functions with lemmas. The parts that change state in the
source are classes, each with the source's own state as fields:

- `Renderer`: the server-name table and the overlays on the page;
- `TrafficDataManager`: the cache;
- `TrafficScript`: the configuration;
- `Panels`: the three flags and the parent/child lists of the page;
- `Particle` and `Trail`: the line-dust particles;
- `Hearts`: the heart list.

Each method is tied to a specification function, and the lemmas state what the
source promises about that function.

The DOM is abstracted:

- A card is its node id, the names its selectors would find, and the anchors
  available for an overlay.
- An overlay records the card it belongs to, whether it sits inside that
  card, and the server it shows.
- A parent's children are a sequence of node ids.

Anything random, the time and the network are parameters of the operations
that use them:

- particle velocity and heart colour;
- `Date.now()` and the fetch response.

Numbers are `real`. Integer truncation (`Math.floor`, `~~`) is written out
where the source applies it.

## Model

| member | source | states |
|---|---|---|
| Uptime.Uptime | general/updata.js:85-106 | a negative elapsed time shows all zeros; otherwise hours < 24, minutes < 60 and seconds < 60, and days·86400 + hours·3600 + minutes·60 + seconds equals the whole seconds elapsed |
| Uptime.DaysNonDecreasing | general/updata.js:97-102 | a later moment never shows fewer days |
| Uptime.ChooseContainer | general/updata.js:116-131 | the display goes into the first candidate that exists; if none exists, into the body |
| TrafficFormat.UnitIndex | nezha/traffic-progress.js:12-18 | the unit chosen is within B..PB; the value is at least that unit's size and below the next unit's (unless the unit is already PB) |
| TrafficFormat.UnitIndexIsLargest | nezha/traffic-progress.js:15-18 | the chosen unit is the largest unit whose size does not exceed the value |
| TrafficFormat.UnitIndexUnique | nezha/traffic-progress.js:15-18 | any unit satisfying the bounds is the one the division loop stops at |
| TrafficFormat.ScaleBytes | nezha/traffic-progress.js:10-23 | the unit is one of the table's units; bytes are shown with 0 decimals and every larger unit with 2 |
| TrafficFormat.FormatFileSize | nezha/traffic-progress.js:10-23 | 0 gives "0 B"; otherwise the divide-by-1024 loop yields a size that, times the unit's size, gives back the input, and the result equals ScaleBytes |
| TrafficFormat.ScaleBytesExamples | nezha/traffic-progress.js:10-23 | 0 → 0 B, 500 → 500 B, 1536 → 1.5 KB, 2^30 → 1 GB |
| TrafficFormat.Percentage | nezha/traffic-progress.js:31-40 | a zero total gives 0; otherwise used / total · 100 |
| TrafficFormat.PercentageExamples | nezha/traffic-progress.js:31-40 | sample values, including byte counts beyond 2^50 |
| TrafficFormat.GradientColor | nezha/traffic-progress.js:85-107 | hue in 0..142, saturation in 69..85, lightness in 45..55, for every input |
| TrafficFormat.GradientClamped | nezha/traffic-progress.js:86-88 | percentages at or below 0 give the full green hsl(142,69,45); percentages at or above 100 give hsl(0,75,45) |
| TrafficFormat.SegmentsMeet | nezha/traffic-progress.js:91-106 | the three pieces agree at 35 % (hsl(32,85,55)) and at 85 % (hsl(0,75,50)), so the gradient is continuous |
| TrafficFormat.HueNonIncreasing | nezha/traffic-progress.js:85-107 | a higher percentage never has a greener hue |
| TrafficFormat.FullIsDarkest | nezha/traffic-progress.js:101-106 | the last piece darkens from 85 % to 100 % |
| TrafficData.EntryAt | nezha/traffic-progress.js:211-218 | a server contributes an entry iff its name is truthy, it has a transfer value (0 included), and the cycle's max, from and to are truthy; the entry carries that name and id |
| TrafficData.IdsOf | nezha/traffic-progress.js:228 | the id table has exactly the data table's names, each mapped to its server's id |
| TrafficData.FoldLastWriteWins | nezha/traffic-progress.js:207-226 | a name is in the data table iff some entry has it, and it then holds the data of the last such entry |
| TrafficData.FoldAppend | nezha/traffic-progress.js:219-226 | adding one entry overwrites exactly that name |
| TrafficData.CycleEntriesExactly | nezha/traffic-progress.js:209-218 | an entry comes from a cycle iff the cycle has names and transfers and some server in it yields that entry |
| TrafficData.EntriesExactly | nezha/traffic-progress.js:207-218 | an entry comes from the payload iff some usable cycle and server yield it |
| TrafficData.IdsOfUpdate | nezha/traffic-progress.js:219-228 | updating one name in the data table updates exactly that name's id |
| TrafficData.ZeroTransferVersusZeroMax | nezha/traffic-progress.js:213-218 | a server that has used 0 bytes is kept (the test is `!== undefined`), and it is dropped exactly when the cycle's max is 0 |
| TrafficLocate.IsSpace | nezha/traffic-progress.js:182-191 | the white space and line terminators `String.prototype.trim` removes |
| TrafficLocate.Trim | nezha/traffic-progress.js:182-191 | `trim()`: white space cut from the start, then from the end (its contract is TrimShape's) |
| TrafficLocate.TrimShape | nezha/traffic-progress.js:182-191 | trim removes exactly the leading and trailing white space |
| TrafficLocate.TrimIdempotent | nezha/traffic-progress.js:182-191 | trimming twice is trimming once |
| TrafficLocate.FirstNameHitMeaning | nezha/traffic-progress.js:172-185 | the first selector whose element has non-blank text supplies the name; none is found iff no selector hits |
| TrafficLocate.FirstTextHitMeaning | nezha/traffic-progress.js:188-193 | the fallback takes the first trimmed text that is non-empty and shorter than 50 characters; none iff no text qualifies |
| TrafficLocate.ServerNamePreference | nezha/traffic-progress.js:170-196 | a selector hit always wins over the text fallback; the result is null iff neither finds anything |
| TrafficLocate.ServerNameTrimmed | nezha/traffic-progress.js:182-191 | a name that is found is non-empty and already trimmed |
| TrafficLocate.GetServerName | nezha/traffic-progress.js:170-196 | the two loops return the name ServerNameOf specifies, never an empty one |
| TrafficLocate.AddAllContents | nezha/traffic-progress.js:155-163 | the set of card containers holds each name's parent exactly once |
| TrafficLocate.GetServerCardContainers | nezha/traffic-progress.js:137-164 | the result of the first selector that finds cards; otherwise the distinct parents of the name elements |
| TrafficLocate.ContainersFound | nezha/traffic-progress.js:147-163 | the fallback runs iff every selector finds nothing, and it yields each existing parent once |
| TrafficLocate.FirstNonEmptyMeaning | nezha/traffic-progress.js:147-152 | the selectors are tried in order and the first non-empty result is taken |
| TrafficRender.DisplayOf | nezha/traffic-progress.js:250-257 | an overlay shows the scaled used and total bytes, the percentage, its gradient colour and the period |
| TrafficRender.PlacementAsWritten | nezha/traffic-progress.js:293-313 | the insertion points throw exactly when the card has no `.server-name`; the overlay lands outside the card exactly when there is no actions, status or info anchor, `.server-name` has no next element, and its parent is the card |
| TrafficRender.RenderCard | nezha/traffic-progress.js:238-333 | one card's step throws exactly when the card's name has data, the card holds no overlay for it, and the placement throws. A card with no name or no data leaves the overlays as they are. When the card's first overlay for its server is found, only that overlay changes, and it now displays the server's data. Otherwise exactly one overlay is appended for this card and server, displaying that data |
| TrafficRender.RenderCards | nezha/traffic-progress.js:238-334 | a pass adds at most one overlay per card, and it completes whenever no card's placement throws |
| TrafficRender.FindSame | nezha/traffic-progress.js:261 | an overlay lookup finds the same overlay after steps that only update overlays in place or append |
| TrafficRender.OtherCardKeepsShows | nezha/traffic-progress.js:261-290 | handling a card of another node leaves what a card shows unchanged |
| TrafficRender.CardShows | nezha/traffic-progress.js:261-290 | after its own step, a card whose name has data and which is not placed outside finds an overlay that displays that data |
| TrafficRender.PassKeepsShows | nezha/traffic-progress.js:238-334 | the rest of a pass, over cards of other nodes, keeps what a card shows |
| TrafficRender.PassShowsData | nezha/traffic-progress.js:238-334 | after a completed pass over cards of distinct nodes, none placed outside, every card whose name has data finds its overlay, and it displays `DisplayOf` that server's data |
| TrafficRender.NodeOneShown | nezha/traffic-progress.js:238-290 | a node-1 card with 500 of 1000 bytes gets one overlay inside it, showing 500 B / 1000 B, 50 % and hsl(22.4, 82, 53.5); a second pass leaves the overlays as they are |
| TrafficRender.FindOverlay | nezha/traffic-progress.js:261 | the lookup finds an overlay iff the card holds one for that server, and it finds the first |
| TrafficRender.RenderCardExtends | nezha/traffic-progress.js:261-333 | handling one card only updates existing overlays in place or adds one |
| TrafficRender.RenderNeverRemoves | nezha/traffic-progress.js:238-334 | a pass never removes an overlay and adds at most one per card |
| TrafficRender.PassLeavesQuiet | nezha/traffic-progress.js:238-334 | when no card of the page gets its overlay placed outside it, after a pass every card either holds its overlay or cannot get one |
| TrafficRender.QuietPassAddsNothing | nezha/traffic-progress.js:261-333 | on such a page a further pass only updates overlays in place |
| TrafficRender.RenderTwiceAddsNothing | nezha/traffic-progress.js:238-334 | when no card of the page gets its overlay placed outside it, repeating a pass adds no overlay |
| TrafficRender.AsWrittenRenderTwiceAddsNothing | nezha/traffic-progress.js:238-334 | the code as written: on every page where no card has a `.server-name` as its last direct child with no other anchor, repeating a pass adds no overlay |
| TrafficRender.OutsidePlacementDuplicates | nezha/traffic-progress.js:293-313 | as written: a card whose `.server-name` is its last direct child gets its overlay after the card, and each pass adds another one |
| TrafficRender.MissingServerNameAbortsPass | nezha/traffic-progress.js:293-298 | as written: a card without `.server-name` throws on the create path, and a later well-formed card gets no overlay |
| TrafficRender.FixedRenderIdempotent | nezha/traffic-progress.js:293-313 | corrected placement: repeating a pass adds nothing, for every page and payload |
| TrafficRender.FixedRenderCoversEveryCard | nezha/traffic-progress.js:238-313 | corrected placement: the pass completes, and every card whose name has data then holds that server's overlay |
| TrafficRender.QuietWithoutThrowSettles | nezha/traffic-progress.js:261-313 | with the corrected placement, a quiet page has every matched card settled |
| TrafficRender.FixedNeverThrows | nezha/traffic-progress.js:293-313 | the corrected placement never throws |
| TrafficRender.Renderer.constructor | nezha/traffic-progress.js:132 | the id table starts empty and the page has no overlays |
| TrafficRender.Renderer.AddCycle | nezha/traffic-progress.js:209-230 | the inner loop adds one cycle's entries to the data table and records their ids in the module-level id table |
| TrafficRender.Renderer.AddServer | nezha/traffic-progress.js:212-228 | one server of a usable cycle: its entry, when complete, is added to the data table and its id to the id table |
| TrafficRender.Renderer.BuildServerDataMap | nezha/traffic-progress.js:204-231 | the nested loops build exactly the table ServerDataMap specifies, and the id table gains its names |
| TrafficRender.Renderer.RenderTrafficStats | nezha/traffic-progress.js:203-335 | the new overlays and completion flag are those of the specified pass over the cards with the as-written placement |
| TrafficCache.TrafficDataManager.constructor | nezha/traffic-progress.js:345 | the cache starts empty |
| TrafficCache.Fresh | nezha/traffic-progress.js:356 | the cache is used exactly when it exists and is younger than the interval |
| TrafficCache.TrafficDataManager.FetchTrafficData | nezha/traffic-progress.js:353-362 | cached data is served iff a cache exists and is younger than the interval; otherwise a request is stamped with the current time |
| TrafficCache.TrafficDataManager.OnResponse | nezha/traffic-progress.js:363-380 | only a successful parsed response replaces the cache (with the request's time) and reaches the callback |
| TrafficCache.TwoRefreshes | nezha/traffic-progress.js:353-376 | two refreshes send one request within the interval and two after it |
| TrafficCache.LateResponseWins | nezha/traffic-progress.js:363-376 | a response that arrives late overwrites a newer one, and the cache keeps the older request's time |
| TrafficConfig.Assign | nezha/traffic-progress.js:400 | `Object.assign`: the source's keys win, the target's other keys stay, and no key is lost |
| TrafficConfig.InitialConfig | nezha/traffic-progress.js:391-400 | every default key is present |
| TrafficConfig.InitialConfigPrecedence | nezha/traffic-progress.js:391-400 | a user setting overrides its default; an unset key keeps the default; the keys are exactly the defaults' and the user's |
| TrafficConfig.TrafficScript.constructor | nezha/traffic-progress.js:391-400 | the script starts with the merged configuration |
| TrafficConfig.TrafficScript.SetConfig | nezha/traffic-progress.js:498-501 | the new settings are merged into the current ones, and no key is lost |
| TrafficConfig.SetConfigComposes | nezha/traffic-progress.js:498-501 | two successive `setConfig` calls equal one call with the merged settings |
| PanelSwap.IndexOf | nezha/network.js:66-67 | `indexOf`: −1 iff the child is absent; otherwise the position of its first occurrence |
| PanelSwap.MoveBefore | nezha/network.js:72-73 | the child at position j taken out and put back at position i < j; the list keeps its length |
| PanelSwap.InsertBefore | nezha/network.js:72-73 | DOM `insertBefore` on a child list: the node is taken out and put back before the reference node, or at the end when there is none |
| PanelSwap.SwapEffect | nezha/network.js:71-74 | when panel 3 precedes panel 4, the first insert moves panel 4 to panel 3's place and the second changes nothing; the children are a permutation of the old ones, panel 4 sits right before panel 3, and nothing else moves |
| PanelSwap.MoveDiv4BeforeDiv3 | nezha/network.js:71-74 | the two `insertBefore` calls on one child list, with div3 first, move div4 to div3's place and leave every other child in order |
| PanelSwap.SwappedIsTree | nezha/network.js:46-77 | the swap keeps every parent's child list duplicate-free and consistent with the parent links |
| PanelSwap.ClickRule | nezha/network.js:32-43 | the button is clicked iff it exists and has not been clicked; the flag is set only when the click does not throw |
| PanelSwap.EdgeTriggered | nezha/network.js:86-96 | hide, click and swap happen only on the rising edge of visibility; on that edge the swap is always scheduled |
| PanelSwap.ResetOnlyOnFallingEdge | nezha/network.js:92-94 | the click flag is cleared exactly on the falling edge |
| PanelSwap.ForceRule | nezha/network.js:98-102 | both panels are forced visible iff both exist and at least one is hidden |
| PanelSwap.AtMostOneClickWhileVisible | nezha/network.js:32-43 | while the panels stay visible, any number of checks clicks at most once, and not at all if they were already visible |
| PanelSwap.Panels.constructor | nezha/network.js:12-14 | all three flags start false |
| PanelSwap.NthChild | nezha/network.js:7-8 | the `:nth-child(n)` selector finds the container's n-th child, or nothing when it has fewer |
| PanelSwap.SwapByPosition | nezha/network.js:46-77 | swapping the panels found by position exchanges the container's third and fourth children |
| PanelSwap.PositionalSwapToggles | nezha/network.js:46-77 | the first swap changes the page; a second swap, which looks the panels up again by position, restores it, so the panels toggle |
| PanelSwap.Panels.SwapDiv3AndDiv4 | nezha/network.js:46-77 | re-entry leaves the page unchanged; otherwise the children become Swapped, the page stays a well-formed tree, and the guard flag is reset |
| PanelSwap.Panels.TryClickButton | nezha/network.js:32-43 | flag and effects are those ClickStep specifies |
| PanelSwap.Panels.CheckVisibility | nezha/network.js:80-103 | flags and effects are those VisibilityStep specifies |
| LineDust.Particle.constructor | general/moveline.js:69-71 | a particle starts with a life span of 120 |
| LineDust.Particle.Init | general/moveline.js:87-102 | velocity is set, and the immediate update moves the particle once and ages it by one |
| LineDust.Particle.Update | general/moveline.js:104-114 | position advances by the velocity, life span drops by one, and opacity is life span / 120 |
| LineDust.Survivors | general/moveline.js:51-56 | the removal pass keeps at most the particles it was given |
| LineDust.SurvivorsMembers | general/moveline.js:51-56 | a particle survives iff it was in the list and its life span is not negative |
| LineDust.SurvivorsAppend | general/moveline.js:51-56 | the removal works piecewise over a concatenation |
| LineDust.SurvivorsAllAlive | general/moveline.js:51-56 | if every particle is alive, nothing is removed |
| LineDust.SurvivorsOrder | general/moveline.js:51-56 | survivors keep their relative order |
| LineDust.SurvivorsDistinct | general/moveline.js:51-56 | removal never makes a particle appear twice |
| LineDust.Trail.SpliceIfDead | general/moveline.js:52-55 | one step of the backward pass splices out exactly the dead particle at that position |
| LineDust.Trail.Frames | general/moveline.js:60-63 | over n frames, a particle just added (life span 119) stays in the trail iff n < 120, with life span 119 − n: it survives 119 frames and is removed in the 120th |
| LineDust.Trail.constructor | general/moveline.js:8 | the trail starts empty |
| LineDust.Trail.AddParticle | general/moveline.js:37-41 | one new particle is appended, already moved once and with life span 119 |
| LineDust.Trail.UpdateParticles | general/moveline.js:43-58 | every particle is aged and moved once, then the list becomes exactly the survivors, in order |
| ClickHearts.Plan | general/clickaixin.js:3-23 | as written: one fate per heart; a heart is removed when faded, and the heart right after a removal is skipped in that frame |
| ClickHearts.PlanMeaning | general/clickaixin.js:3-23 | as written: removed implies faded, updated implies not faded, and a heart is skipped iff the heart before it was removed |
| ClickHearts.SkippedAfterRemoval | general/clickaixin.js:4-7 | alphas [0, 0.5]: as written the second heart is skipped; the corrected sweep updates it |
| ClickHearts.SecondFadedSurvives | general/clickaixin.js:4-7 | alphas [0, 0]: as written the second faded heart survives the frame; the corrected sweep removes both |
| ClickHearts.PlanFixed | general/clickaixin.js:3-23 | corrected: every faded heart is removed and every other heart is updated |
| ClickHearts.PlanWithoutFaded | general/clickaixin.js:3-23 | with no faded heart, the as-written and the corrected sweeps agree |
| ClickHearts.KeptAll | general/clickaixin.js:4-7 | a frame that removes nothing keeps every heart in place |
| ClickHearts.KeptIndices | general/clickaixin.js:4-7 | the positions a frame keeps: increasing, all with a fate other than Removed, and including every such position |
| ClickHearts.KeptAt | general/clickaixin.js:4-7 | the kept list holds exactly the elements at KeptIndices, each once, in their old order |
| ClickHearts.FrameKeeps | general/clickaixin.js:3-23 | after a frame, the hearts are those at KeptIndices of its plan, in their old order, each after its own step; every heart still visible is kept |
| ClickHearts.Channel | general/clickaixin.js:60-65 | `~~(255·random)` is a colour channel in 0..254, the floor of its argument |
| ClickHearts.Install | general/clickaixin.js:27-33 | the new handler remembers whether the old `onclick` was a function |
| ClickHearts.Dispatch | general/clickaixin.js:29-32 | a handler called without an event spawns nothing; a click spawns at most one heart, at the click, and only when nothing threw |
| ClickHearts.InstalledOnce | general/clickaixin.js:27-33 | a click calls the page's previous handler (without the event); if it throws, the wrapper stops and no heart appears, otherwise exactly one heart is spawned at the click |
| ClickHearts.InstalledTwiceSpawnsNothing | general/clickaixin.js:27-33 | installed twice, the inner heart handler receives no event, throws, and no heart is spawned |
| ClickHearts.NewHeart | general/clickaixin.js:35-47 | a heart starts 5 px up and left of the click, with scale 1 and alpha 1 |
| ClickHearts.Step | general/clickaixin.js:9-11 | an updated heart rises by 1, grows by 0.004 and fades by 0.013; other fates leave it unchanged |
| ClickHearts.FrameWithoutFaded | general/clickaixin.js:3-23 | with no faded heart, a frame updates every heart in place |
| ClickHearts.FadeOut | general/clickaixin.js:9-11 | after k updates a new heart's alpha is 1 − 0.013k, which is positive iff k < 77 |
| ClickHearts.Hearts.constructor | general/clickaixin.js:67 | the list starts empty |
| ClickHearts.Hearts.Spawn | general/clickaixin.js:35-47 | one new heart is appended at the click |
| ClickHearts.Hearts.Frame | general/clickaixin.js:3-25 | the splice loop leaves exactly AfterFrame of the old list, as written with the skip |
| ClickHearts.Hearts.Visit | general/clickaixin.js:4-22 | one loop iteration keeps the sweep invariant and consumes at least one heart of the plan |

## Left out

- DOM elements, CSS text and styles are not modelled beyond the values the scripts compute. This covers `applyProperties`, the particle's `die`, the heart `<style>` injection and the uptime HTML/CSS injection. `forceBothVisible`, `hideSection` and the `setTimeout`-delayed calls in `network.js` are recorded as effects, not performed.
- Timers, `requestAnimationFrame`, `MutationObserver`, `fetch` and console logging are not modelled. Their callbacks are the operations themselves, called by the caller in whatever order it chooses.
- The `debugMode` branch of `updateTrafficStats` is not modelled. It calls a function the overlay module does not export, so it throws into the surrounding `catch`.
- `formatDate` is not modelled: it is locale formatting.
- `toFixed` strings are not modelled. Values are kept as reals with a decimal count. The 2-decimal rounding of the percentage before it picks a colour is not modelled.
- NaN, infinities and floating-point rounding are not modelled: numbers are reals.
- Transfer values are taken to be numbers. A JSON `null` transfer passes the `!== undefined` test (nezha/traffic-progress.js:213-218), and formatting it would throw in `toFixed` and abort the pass. The model cannot express a `null` transfer.
- String length counts characters, not UTF-16 code units.
- The cards on a page are taken to be distinct, non-nested nodes. The `appendChild` fallback of the overlay placement is reached only for a detached card, and is treated as placing the overlay inside the card.
- The hearts are values in a sequence rather than objects. Only the heart array references them, so no aliasing is lost.
- PanelSwap.Panels.SwapDiv3AndDiv4: the panels are arguments rather than looked up inside the method. The positional lookup, and the toggle it causes on a later swap, are stated on values by `NthChild` and `PositionalSwapToggles`.
- TrafficRender.Renderer.RenderTrafficStats: a card's name lookup and its anchors are inputs, not computed from the card's subtree.
- The `showTrafficStats` setting is kept only as a configuration key: the script sets its default and never reads it, so rendering does not depend on it. The script reads the configuration once at start-up and does not re-read a user override on every tick.

## Findings

| source | as written | input that shows it | evidently intended | confidence | as-written member | corrected member |
|---|---|---|---|---|---|---|
| nezha/traffic-progress.js:293-313 | when `.server-name` is a direct child of the card and has no next sibling, and the card has no actions, status or info anchor, the overlay is inserted after the card; the lookup at line 261 only searches inside the card | a card with only a `.server-name` as its last child, rendered twice | the overlay placed inside the card, so a later pass updates it | not executed | TrafficRender.OutsidePlacementDuplicates | TrafficRender.FixedRenderIdempotent |
| nezha/traffic-progress.js:297-298 | the placement reads `.server-name` eagerly and dereferences it when the card has none, throwing out of the whole pass | a card named by `p.font-medium` without `.server-name`, followed by a normal card | the missing anchor skipped, so every other card still gets its overlay | not executed | TrafficRender.MissingServerNameAbortsPass | TrafficRender.FixedRenderCoversEveryCard |
| general/clickaixin.js:4-7 | `splice(e, 1)` inside the forward `for` loop without stepping `e` back, so the heart after a removed one is not visited in that frame | hearts with alphas [0, 0.5] (and [0, 0]: the second faded heart survives the frame) | every heart visited once per frame | not executed | ClickHearts.SkippedAfterRemoval | ClickHearts.PlanFixed |

The classes (`Renderer.RenderTrafficStats`, `Hearts.Frame`) model the code as written, so their contracts carry these defects. The corrected definitions (`PlacementFixed`, `PlanFixed`) are specification functions with their intended properties proved beside the as-written ones.
