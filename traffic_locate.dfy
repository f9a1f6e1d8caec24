/**
 * Finding the server cards of the dashboard and the server name on a card
 * (nezha/traffic-progress.js, `getServerCardContainers` and `getServerName`).
 *
 * CSS selector matching is not modelled: what each `querySelector` or
 * `querySelectorAll` call would return is an input.
 */
module TrafficLocate {
  import opened Common

  /** The characters `String.prototype.trim` removes: white space and line terminators. */
  predicate IsSpace(c: char)
  {
    c == '\t' || c == '\n' || c == '\U{B}' || c == '\U{C}' || c == '\r' || c == ' ' ||
    c == '\U{A0}' || c == '\U{1680}' || ('\U{2000}' <= c <= '\U{200A}') ||
    c == '\U{2028}' || c == '\U{2029}' || c == '\U{202F}' || c == '\U{205F}' ||
    c == '\U{3000}' || c == '\U{FEFF}'
  }

  function TrimStart(s: string): string
  {
    if s != [] && IsSpace(s[0]) then TrimStart(s[1..]) else s
  }

  function TrimEnd(s: string): string
  {
    if s != [] && IsSpace(s[|s| - 1]) then TrimEnd(s[..|s| - 1]) else s
  }

  /** `s.trim()`. */
  function Trim(s: string): string
  {
    TrimEnd(TrimStart(s))
  }

  lemma {:induction false} TrimStartShape(s: string)
    ensures exists k :: 0 <= k <= |s| && TrimStart(s) == s[k..] && forall i :: 0 <= i < k ==> IsSpace(s[i])
    ensures TrimStart(s) != [] ==> !IsSpace(TrimStart(s)[0])
  {
    if s != [] && IsSpace(s[0]) {
      TrimStartShape(s[1..]);
      var k :| 0 <= k <= |s[1..]| && TrimStart(s[1..]) == s[1..][k..] && forall i :: 0 <= i < k ==> IsSpace(s[1..][i]);
      assert s[1..][k..] == s[k + 1..];
      assert forall i :: 0 <= i < k + 1 ==> IsSpace(s[i]) by {
        forall i | 0 <= i < k + 1 ensures IsSpace(s[i]) {
          if i > 0 { assert s[i] == s[1..][i - 1]; }
        }
      }
    } else {
      assert TrimStart(s) == s[0..];
    }
  }

  lemma {:induction false} TrimEndShape(s: string)
    ensures exists k :: 0 <= k <= |s| && TrimEnd(s) == s[..k] && forall i :: k <= i < |s| ==> IsSpace(s[i])
    ensures TrimEnd(s) != [] ==> !IsSpace(TrimEnd(s)[|TrimEnd(s)| - 1])
  {
    if s != [] && IsSpace(s[|s| - 1]) {
      var init := s[..|s| - 1];
      TrimEndShape(init);
      var k :| 0 <= k <= |init| && TrimEnd(init) == init[..k] && forall i :: k <= i < |init| ==> IsSpace(init[i]);
      assert init[..k] == s[..k];
      assert forall i :: k <= i < |s| ==> IsSpace(s[i]) by {
        forall i | k <= i < |s| ensures IsSpace(s[i]) {
          if i < |init| { assert s[i] == init[i]; }
        }
      }
    } else {
      assert TrimEnd(s) == s[..|s|];
    }
  }

  /**
   * A trimmed string is a contiguous piece of the original with only white
   * space cut from either end, and neither of its ends is white space.
   */
  lemma TrimShape(s: string)
    ensures exists a, b :: 0 <= a <= b <= |s| && Trim(s) == s[a..b] &&
              (forall i :: 0 <= i < a ==> IsSpace(s[i])) && (forall i :: b <= i < |s| ==> IsSpace(s[i]))
    ensures Trim(s) != [] ==> !IsSpace(Trim(s)[0]) && !IsSpace(Trim(s)[|Trim(s)| - 1])
  {
    TrimPiece(s);
    TrimEnds(s);
  }

  /** The trimmed string is the piece between a white-space prefix and suffix. */
  lemma TrimPiece(s: string)
    ensures exists a, b :: 0 <= a <= b <= |s| && Trim(s) == s[a..b] &&
              (forall i :: 0 <= i < a ==> IsSpace(s[i])) && (forall i :: b <= i < |s| ==> IsSpace(s[i]))
  {
    TrimStartShape(s);
    var a :| 0 <= a <= |s| && TrimStart(s) == s[a..] && forall i :: 0 <= i < a ==> IsSpace(s[i]);
    var t := s[a..];
    TrimEndShape(t);
    var k :| 0 <= k <= |t| && TrimEnd(t) == t[..k] && forall i :: k <= i < |t| ==> IsSpace(t[i]);
    assert Trim(s) == s[a..a + k] by {
      assert t[..k] == s[a..a + k];
    }
    forall i | a + k <= i < |s| ensures IsSpace(s[i]) {
      assert s[i] == t[i - a];
    }
  }

  /** Neither end of a non-empty trimmed string is white space. */
  lemma TrimEnds(s: string)
    ensures Trim(s) != [] ==> !IsSpace(Trim(s)[0]) && !IsSpace(Trim(s)[|Trim(s)| - 1])
  {
    var t := TrimStart(s);
    TrimStartShape(s);
    TrimEndShape(t);
    if Trim(s) != [] {
      var k :| 0 <= k <= |t| && TrimEnd(t) == t[..k] && forall i :: k <= i < |t| ==> IsSpace(t[i]);
      assert Trim(s)[0] == t[0];
    }
  }

  /** Trimming twice is trimming once. */
  lemma TrimIdempotent(s: string)
    ensures Trim(Trim(s)) == Trim(s)
  {
    TrimShape(s);
    var t := Trim(s);
    if t != [] {
      assert !IsSpace(t[0]) && !IsSpace(t[|t| - 1]);
      assert TrimStart(t) == t;
      assert TrimEnd(t) == t;
    }
  }

  /** The name selectors tried on a card, in order. */
  const NameSelectors: seq<string> :=
    ["p.font-medium", "h3.font-medium", "div.font-medium > p", "p.text-sm.font-medium", "div > p:first-child"]

  /** A name selector succeeds when its first match has non-empty trimmed text. */
  predicate NameHit(firstMatch: Option<string>)
  {
    firstMatch.Some? && Trim(firstMatch.value) != []
  }

  /** A `p`, `h3` or `div` qualifies when its trimmed text is non-empty and shorter than 50. */
  predicate TextHit(text: string)
  {
    Trim(text) != [] && |Trim(text)| < 50
  }

  function FirstNameHit(firstMatches: seq<Option<string>>): Option<string>
  {
    if firstMatches == [] then None
    else if NameHit(firstMatches[0]) then Some(Trim(firstMatches[0].value))
    else FirstNameHit(firstMatches[1..])
  }

  function FirstTextHit(texts: seq<string>): Option<string>
  {
    if texts == [] then None
    else if TextHit(texts[0]) then Some(Trim(texts[0]))
    else FirstTextHit(texts[1..])
  }

  /**
   * The name of a card, given the text of the first match of each name selector
   * (None when it matches nothing) and the texts of the card's `p`, `h3` and
   * `div` elements in document order.
   */
  function ServerNameOf(firstMatches: seq<Option<string>>, texts: seq<string>): Option<string>
  {
    if FirstNameHit(firstMatches).Some? then FirstNameHit(firstMatches) else FirstTextHit(texts)
  }

  lemma {:induction false} FirstNameHitMeaning(ms: seq<Option<string>>)
    ensures FirstNameHit(ms).None? <==> forall k :: 0 <= k < |ms| ==> !NameHit(ms[k])
    ensures FirstNameHit(ms).Some? ==>
              exists i :: 0 <= i < |ms| && NameHit(ms[i]) && FirstNameHit(ms) == Some(Trim(ms[i].value)) &&
                forall k :: 0 <= k < i ==> !NameHit(ms[k])
  {
    if ms != [] {
      FirstNameHitMeaning(ms[1..]);
      assert forall k :: 1 <= k < |ms| ==> ms[k] == ms[1..][k - 1];
      if !NameHit(ms[0]) && FirstNameHit(ms).Some? {
        var i :| 0 <= i < |ms[1..]| && NameHit(ms[1..][i]) && FirstNameHit(ms[1..]) == Some(Trim(ms[1..][i].value)) &&
                 forall k :: 0 <= k < i ==> !NameHit(ms[1..][k]);
        assert NameHit(ms[i + 1]);
      }
    }
  }

  lemma {:induction false} FirstTextHitMeaning(ts: seq<string>)
    ensures FirstTextHit(ts).None? <==> forall k :: 0 <= k < |ts| ==> !TextHit(ts[k])
    ensures FirstTextHit(ts).Some? ==>
              exists i :: 0 <= i < |ts| && TextHit(ts[i]) && FirstTextHit(ts) == Some(Trim(ts[i])) &&
                forall k :: 0 <= k < i ==> !TextHit(ts[k])
  {
    if ts != [] {
      FirstTextHitMeaning(ts[1..]);
      assert forall k :: 1 <= k < |ts| ==> ts[k] == ts[1..][k - 1];
      if !TextHit(ts[0]) && FirstTextHit(ts).Some? {
        var i :| 0 <= i < |ts[1..]| && TextHit(ts[1..][i]) && FirstTextHit(ts[1..]) == Some(Trim(ts[1..][i])) &&
                 forall k :: 0 <= k < i ==> !TextHit(ts[1..][k]);
        assert TextHit(ts[i + 1]);
      }
    }
  }

  /**
   * The order of preference: the first selector whose first match has text;
   * failing all of them, the first short non-empty text; failing that, null.
   */
  lemma ServerNamePreference(ms: seq<Option<string>>, ts: seq<string>)
    ensures (exists i :: 0 <= i < |ms| && NameHit(ms[i])) ==>
              exists i :: 0 <= i < |ms| && NameHit(ms[i]) && ServerNameOf(ms, ts) == Some(Trim(ms[i].value)) &&
                forall k :: 0 <= k < i ==> !NameHit(ms[k])
    ensures (forall k :: 0 <= k < |ms| ==> !NameHit(ms[k])) && (exists j :: 0 <= j < |ts| && TextHit(ts[j])) ==>
              exists j :: 0 <= j < |ts| && TextHit(ts[j]) && ServerNameOf(ms, ts) == Some(Trim(ts[j])) &&
                forall k :: 0 <= k < j ==> !TextHit(ts[k])
    ensures ServerNameOf(ms, ts).None? <==>
              (forall k :: 0 <= k < |ms| ==> !NameHit(ms[k])) && (forall k :: 0 <= k < |ts| ==> !TextHit(ts[k]))
  {
    FirstNameHitMeaning(ms);
    FirstTextHitMeaning(ts);
  }

  /** A name that is found is trimmed and non-empty, so the caller never sees a blank name. */
  lemma ServerNameTrimmed(ms: seq<Option<string>>, ts: seq<string>)
    requires ServerNameOf(ms, ts).Some?
    ensures ServerNameOf(ms, ts).value != [] && Trim(ServerNameOf(ms, ts).value) == ServerNameOf(ms, ts).value
  {
    FirstNameHitMeaning(ms);
    FirstTextHitMeaning(ts);
    if FirstNameHit(ms).Some? {
      var i :| 0 <= i < |ms| && NameHit(ms[i]) && FirstNameHit(ms) == Some(Trim(ms[i].value));
      TrimIdempotent(ms[i].value);
    } else {
      var j :| 0 <= j < |ts| && TextHit(ts[j]) && FirstTextHit(ts) == Some(Trim(ts[j]));
      TrimIdempotent(ts[j]);
    }
  }

  /** `getServerName`: two scans, selectors first, then the text-bearing elements. */
  method GetServerName(firstMatches: seq<Option<string>>, texts: seq<string>) returns (name: Option<string>)
    ensures name == ServerNameOf(firstMatches, texts)
    ensures name.Some? ==> name.value != []
  {
    var i := 0;
    while i < |firstMatches|
      invariant 0 <= i <= |firstMatches|
      invariant FirstNameHit(firstMatches) == FirstNameHit(firstMatches[i..])
    {
      assert firstMatches[i..][1..] == firstMatches[i + 1..];
      var nameEl := firstMatches[i];
      if nameEl.Some? && Trim(nameEl.value) != [] {
        return Some(Trim(nameEl.value));
      }
      i := i + 1;
    }
    var j := 0;
    while j < |texts|
      invariant 0 <= j <= |texts|
      invariant FirstTextHit(texts) == FirstTextHit(texts[j..])
    {
      assert texts[j..][1..] == texts[j + 1..];
      var text := Trim(texts[j]);
      if text != [] && |text| < 50 {
        return Some(text);
      }
      j := j + 1;
    }
    return None;
  }

  /** The card selectors tried on the document, in order. */
  const CardSelectors: seq<string> :=
    ["div.border.rounded-xl", "div.border.rounded-lg", "section.server-card", "div[data-server-id]",
     "div.bg-white.dark\\:bg-gray-800.rounded-lg.shadow"]

  /** The first non-empty result among the card selectors, if any. */
  function FirstNonEmpty(results: seq<seq<NodeId>>): Option<seq<NodeId>>
  {
    if results == [] then None
    else if results[0] != [] then Some(results[0])
    else FirstNonEmpty(results[1..])
  }

  /** Adding to a JavaScript Set keeps the first occurrence and its insertion position. */
  function AddAll(acc: seq<NodeId>, parents: seq<Option<NodeId>>): seq<NodeId>
    decreases |parents|
  {
    if parents == [] then acc
    else AddAll(if parents[0].Some? && parents[0].value !in acc then acc + [parents[0].value] else acc, parents[1..])
  }

  predicate NoDuplicates(s: seq<NodeId>)
  {
    forall i, j :: 0 <= i < j < |s| ==> s[i] != s[j]
  }

  /** The fallback set holds each found ancestor exactly once. */
  lemma {:induction false} AddAllContents(acc: seq<NodeId>, parents: seq<Option<NodeId>>)
    requires NoDuplicates(acc)
    ensures NoDuplicates(AddAll(acc, parents))
    decreases |parents|
    ensures forall n :: n in AddAll(acc, parents) <==> n in acc || Some(n) in parents
  {
    if parents != [] {
      var acc' := if parents[0].Some? && parents[0].value !in acc then acc + [parents[0].value] else acc;
      AddAllContents(acc', parents[1..]);
      assert parents == [parents[0]] + parents[1..];
    }
  }

  /**
   * `getServerCardContainers`: the matches of the first card selector that
   * matches anything; otherwise the nearest `div` or `section` ancestor of each
   * `p.font-medium` / `h3.font-medium` element (`findParent`'s result, None when
   * there is none), each container once, in first-seen order.
   */
  method GetServerCardContainers(selectorResults: seq<seq<NodeId>>, nameParents: seq<Option<NodeId>>)
    returns (containers: seq<NodeId>)
    ensures FirstNonEmpty(selectorResults).Some? ==> containers == FirstNonEmpty(selectorResults).value
    ensures FirstNonEmpty(selectorResults).None? ==> containers == AddAll([], nameParents)
  {
    var i := 0;
    while i < |selectorResults|
      invariant 0 <= i <= |selectorResults|
      invariant FirstNonEmpty(selectorResults) == FirstNonEmpty(selectorResults[i..])
    {
      assert selectorResults[i..][1..] == selectorResults[i + 1..];
      if |selectorResults[i]| > 0 {
        return selectorResults[i];
      }
      i := i + 1;
    }
    var found: seq<NodeId> := [];
    var j := 0;
    while j < |nameParents|
      invariant 0 <= j <= |nameParents|
      invariant AddAll([], nameParents) == AddAll(found, nameParents[j..])
    {
      assert nameParents[j..][1..] == nameParents[j + 1..];
      var container := nameParents[j];
      if container.Some? && container.value !in found {
        found := found + [container.value];
      }
      j := j + 1;
    }
    containers := found;
  }

  /** Which containers the lookup returns: the first non-empty selector result, or every found ancestor once. */
  lemma ContainersFound(selectorResults: seq<seq<NodeId>>, nameParents: seq<Option<NodeId>>)
    ensures FirstNonEmpty(selectorResults).None? <==> forall i :: 0 <= i < |selectorResults| ==> selectorResults[i] == []
    ensures FirstNonEmpty(selectorResults).Some? ==>
              exists i :: 0 <= i < |selectorResults| && FirstNonEmpty(selectorResults).value == selectorResults[i] != [] &&
                forall k :: 0 <= k < i ==> selectorResults[k] == []
    ensures NoDuplicates(AddAll([], nameParents))
    ensures forall n :: n in AddAll([], nameParents) <==> Some(n) in nameParents
  {
    FirstNonEmptyMeaning(selectorResults);
    AddAllContents([], nameParents);
  }

  lemma {:induction false} FirstNonEmptyMeaning(rs: seq<seq<NodeId>>)
    ensures FirstNonEmpty(rs).None? <==> forall i :: 0 <= i < |rs| ==> rs[i] == []
    ensures FirstNonEmpty(rs).Some? ==>
              exists i :: 0 <= i < |rs| && FirstNonEmpty(rs).value == rs[i] != [] && forall k :: 0 <= k < i ==> rs[k] == []
  {
    if rs != [] {
      FirstNonEmptyMeaning(rs[1..]);
      assert forall k :: 1 <= k < |rs| ==> rs[k] == rs[1..][k - 1];
      if rs[0] == [] && FirstNonEmpty(rs).Some? {
        var i :| 0 <= i < |rs[1..]| && FirstNonEmpty(rs[1..]).value == rs[1..][i] != [] && forall k :: 0 <= k < i ==> rs[1..][k] == [];
        assert rs[i + 1] == rs[1..][i];
      }
    }
  }
}
