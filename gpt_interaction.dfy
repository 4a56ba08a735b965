/** The deterministic part of describing the board: the fixed section
    tables, detecting known cards in a description, reassembling the
    per-section results of the concurrent requests, and rendering the game
    state as a prompt. */
module GptInteraction {
  import opened Text
  import opened Files
  import opened ReadCardAbilities

  /** The five board sections, in the order every aggregate follows. */
  const SectionOrder: seq<string> :=
    ["your_cards", "location1", "location2", "location3", "energy_turns"]

  /** The file each section's description is saved to. */
  const SectionOutputs: map<string, string> :=
    map["your_cards" := "hand.txt", "energy_turns" := "energyPower.txt",
        "location1" := "location1.txt", "location2" := "location2.txt",
        "location3" := "location3.txt"]

  /** The first line of every prompt. */
  const PromptHeader: string := "Current game state:"

  /** The heading of the ability reference block. */
  const AbilityHeading: string := "Card Ability Reference:"

  /** The text standing in for a referenced card with no ability entry. */
  const AbilityUnknown: string := "Ability unknown"

  /** The sections are distinct, each has an output file, and no two
      sections write the same file. */
  lemma SectionTablesAgree()
    ensures forall i, j :: 0 <= i < j < |SectionOrder| ==> SectionOrder[i] != SectionOrder[j]
    ensures forall s :: s in SectionOrder <==> s in SectionOutputs
    ensures forall i, j :: 0 <= i < j < |SectionOrder| ==>
              SectionOutputs[SectionOrder[i]] != SectionOutputs[SectionOrder[j]]
  {
  }

  /** The section descriptions that came back, and the known cards they
      mention. */
  datatype GameState = GameState(sections: map<string, string>, referencedCards: set<string>)
  {
    /** `to_prompt`: the header line, then the stripped section text on
        its own line if there is any, then the reference block directly on
        the next line, since the empty separator part is filtered out; only
        trailing whitespace of the whole is removed, so the prompt always
        opens with the header. */
    function ToPrompt(abilities: map<string, string>): (r: string)
      ensures r == StripRight(PromptHeader + LayoutTail(Strip(Join("\n", SectionBlocks(sections))),
                                                        AbilityText(referencedCards, abilities)))
      ensures PromptHeader <= r
    {
      var sectionsText := Join("\n", SectionBlocks(sections));
      var abilityText := AbilityText(referencedCards, abilities);
      var parts := [PromptHeader, Strip(sectionsText)]
                   + (if abilityText != [] then ["", abilityText] else []);
      NonEmptyParts(PromptHeader, Strip(sectionsText), abilityText);
      JoinParts(PromptHeader, Strip(sectionsText), abilityText);
      var joined := PromptHeader + LayoutTail(Strip(sectionsText), abilityText);
      assert joined[0] == 'C';
      StripLeftKeepsStart(joined);
      StripRightKeepsPrefix(PromptHeader, LayoutTail(Strip(sectionsText), abilityText));
      Strip(Join("\n", NonEmpty(parts)))
    }
  }

  /** `extract_known_cards`: the names whose lower-case form occurs in the
      lower-cased text. */
  function ExtractKnownCards(text: string, cardNames: set<string>): (r: set<string>)
    ensures r <= cardNames
    ensures forall c :: c in r <==> c in cardNames && Contains(Lower(text), Lower(c))
  {
    set c | c in cardNames && Contains(Lower(text), Lower(c))
  }

  /** A card named verbatim in the text is always detected. */
  lemma ExactMentionDetected(text: string, cardNames: set<string>, c: string)
    requires c in cardNames && Contains(text, c)
    ensures c in ExtractKnownCards(text, cardNames)
  {
    LowerPreservesContains(text, c);
  }

  /** What is detected in a piece of text is detected in any text that
      contains it; in particular every card found in one section's
      description would also be found in the combined description. */
  lemma DetectionGrowsWithText(part: string, whole: string, cardNames: set<string>)
    requires Contains(whole, part)
    ensures ExtractKnownCards(part, cardNames) <= ExtractKnownCards(whole, cardNames)
  {
    forall c | c in ExtractKnownCards(part, cardNames)
      ensures c in ExtractKnownCards(whole, cardNames)
    {
      LowerPreservesContains(whole, part);
      ContainsTransitive(Lower(whole), Lower(part), Lower(c));
    }
  }

  /** A completion order names exactly the sections. */
  lemma CompletionCoversSections(completionOrder: seq<string>)
    requires multiset(completionOrder) == multiset(SectionOrder)
    ensures forall s :: s in completionOrder <==> s in SectionOrder
  {
    forall s ensures s in completionOrder <==> s in SectionOrder {
      assert s in completionOrder <==> s in multiset(completionOrder);
      assert s in SectionOrder <==> s in multiset(SectionOrder);
    }
  }

  /** The `as_completed` loop: each finished request either stores its
      description under its section or, when it raised, is logged and
      skipped.  The result holds exactly the sections that succeeded, with
      their text unchanged, whatever order the requests finished in. */
  method CollectDescriptions(outcomes: map<string, Option<string>>, completionOrder: seq<string>)
    returns (descriptions: map<string, string>)
    requires multiset(completionOrder) == multiset(SectionOrder)
    requires forall s :: s in SectionOrder ==> s in outcomes
    ensures forall s :: s in descriptions <==> s in SectionOrder && outcomes[s].Some?
    ensures forall s :: s in descriptions ==> descriptions[s] == outcomes[s].value
  {
    CompletionCoversSections(completionOrder);
    descriptions := map[];
    for k := 0 to |completionOrder|
      invariant forall s :: s in descriptions <==> s in completionOrder[..k] && outcomes[s].Some?
      invariant forall s :: s in descriptions ==> descriptions[s] == outcomes[s].value
    {
      var section := completionOrder[k];
      assert completionOrder[..k + 1] == completionOrder[..k] + [section];
      match outcomes[section]
      case Some(description) =>
        descriptions := descriptions[section := description];
      case None =>
    }
    assert completionOrder[..|completionOrder|] == completionOrder;
  }

  /** The entries of `order` that `sections` has, in the order of `order`. */
  function PresentSections(order: seq<string>, sections: map<string, string>): (r: seq<string>)
    ensures IsSubsequence(r, order)
    ensures forall s :: s in r <==> s in order && s in sections
    decreases |order|
  {
    if order == [] then []
    else
      var rest := PresentSections(order[1..], sections);
      assert forall s :: s in order <==> s == order[0] || s in order[1..];
      if order[0] in sections then
        assert ([order[0]] + rest)[1..] == rest;
        [order[0]] + rest
      else rest
  }

  /** The ordered-dictionary comprehension: the stored descriptions as
      (section, text) entries in section order. */
  function OrderDescriptions(descriptions: map<string, string>): (r: seq<(string, string)>)
    ensures |r| == |PresentSections(SectionOrder, descriptions)|
    ensures forall k :: 0 <= k < |r| ==>
              r[k].0 == PresentSections(SectionOrder, descriptions)[k]
              && r[k].0 in descriptions && r[k].1 == descriptions[r[k].0]
  {
    var present := PresentSections(SectionOrder, descriptions);
    seq(|present|, k requires 0 <= k < |present| => (present[k], descriptions[present[k]]))
  }

  /** The `referenced_cards` loop: the union of the cards detected in each
      description. */
  method ReferencedCards(texts: seq<string>, cardNames: set<string>) returns (refs: set<string>)
    ensures refs <= cardNames
    ensures forall c :: c in refs <==> FoundInTexts(c, texts, cardNames)
  {
    refs := {};
    for k := 0 to |texts|
      invariant refs <= cardNames
      invariant forall c :: c in refs <==>
                  exists j :: 0 <= j < k && c in ExtractKnownCards(texts[j], cardNames)
    {
      refs := refs + ExtractKnownCards(texts[k], cardNames);
    }
  }

  /** `get_all_descriptions` after the requests have run: `outcomes`
      holds each section's result (`None` when its request raised) and
      `completionOrder` the order the requests finished in.  The ability
      file is loaded first and its errors propagate. */
  method GetAllDescriptions(abilitiesFile: TextFile, outcomes: map<string, Option<string>>,
                            completionOrder: seq<string>)
    returns (r: Result<GameState>)
    requires multiset(completionOrder) == multiset(SectionOrder)
    requires forall s :: s in SectionOrder ==> s in outcomes
    ensures r.Err? <==> CardAbilities(abilitiesFile).Err?
    ensures r.Err? ==> r.error == CardAbilities(abilitiesFile).error
    ensures r.Ok? ==>
              var state := r.value;
              var keys := CardAbilities(abilitiesFile).value.Keys;
              && (forall s :: s in state.sections <==> s in SectionOrder && outcomes[s].Some?)
              && (forall s :: s in state.sections ==> state.sections[s] == outcomes[s].value)
              && state.referencedCards <= keys
              && (forall c :: c in state.referencedCards <==> FoundInSections(c, state.sections, keys))
  {
    var loaded := LoadCardAbilities(abilitiesFile);
    if loaded.Err? {
      return Err(loaded.error);
    }
    var cardAbilities := loaded.value;
    var descriptions := CollectDescriptions(outcomes, completionOrder);
    // As a mapping the ordered dictionary equals `descriptions`; its order
    // is the section order, which `ToPrompt` follows through SectionOrder.
    var present := PresentSections(SectionOrder, descriptions);
    var texts := DescriptionTexts(descriptions);
    var referenced := ReferencedCards(texts, cardAbilities.Keys);
    ReferencedOverSections(texts, present, descriptions, cardAbilities.Keys);
    return Ok(GameState(descriptions, referenced));
  }

  /** `ordered_descriptions.values()`: the stored texts, in section order. */
  function DescriptionTexts(descriptions: map<string, string>): (r: seq<string>)
    ensures var present := PresentSections(SectionOrder, descriptions);
            |r| == |present| && forall k :: 0 <= k < |r| ==> r[k] == descriptions[present[k]]
  {
    var ordered := OrderDescriptions(descriptions);
    seq(|ordered|, k requires 0 <= k < |ordered| => ordered[k].1)
  }

  /** `c` is detected in one of `texts`. */
  predicate FoundInTexts(c: string, texts: seq<string>, cardNames: set<string>) {
    exists k :: 0 <= k < |texts| && c in ExtractKnownCards(texts[k], cardNames)
  }

  /** `c` is detected in the text of one of the stored sections. */
  predicate FoundInSections(c: string, descriptions: map<string, string>, cardNames: set<string>) {
    exists s :: s in descriptions && c in ExtractKnownCards(descriptions[s], cardNames)
  }

  /** The cards found across a listing of the stored texts are the cards
      found in the text of some stored section. */
  lemma ReferencedOverSections(texts: seq<string>, order: seq<string>,
                                descriptions: map<string, string>, cardNames: set<string>)
    requires |texts| == |order|
    requires forall k :: 0 <= k < |order| ==> order[k] in descriptions && texts[k] == descriptions[order[k]]
    requires forall s :: s in descriptions ==> s in order
    ensures forall c :: FoundInTexts(c, texts, cardNames) <==> FoundInSections(c, descriptions, cardNames)
  {
    forall c ensures FoundInTexts(c, texts, cardNames) <==> FoundInSections(c, descriptions, cardNames) {
      if FoundInTexts(c, texts, cardNames) {
        var k :| 0 <= k < |texts| && c in ExtractKnownCards(texts[k], cardNames);
        assert c in ExtractKnownCards(descriptions[order[k]], cardNames);
      }
      if FoundInSections(c, descriptions, cardNames) {
        var s :| s in descriptions && c in ExtractKnownCards(descriptions[s], cardNames);
        var k :| 0 <= k < |order| && order[k] == s;
        assert c in ExtractKnownCards(texts[k], cardNames);
      }
    }
  }

  /** One rendered section: its capitalised name, a colon, a line break
      and its description. */
  function SectionBlock(section: string, text: string): string {
    Capitalize(section) + ":\n" + text
  }

  /** The rendered present sections, in section order. */
  function SectionBlocks(sections: map<string, string>): (r: seq<string>)
    ensures var present := PresentSections(SectionOrder, sections);
            |r| == |present|
            && forall k :: 0 <= k < |r| ==> r[k] == SectionBlock(present[k], sections[present[k]])
  {
    var present := PresentSections(SectionOrder, sections);
    seq(|present|, k requires 0 <= k < |present| => SectionBlock(present[k], sections[present[k]]))
  }

  /** One reference line: the card and its ability, or the placeholder. */
  function AbilityLine(card: string, abilities: map<string, string>): string {
    card + ": " + (if card in abilities then abilities[card] else AbilityUnknown)
  }

  /** One reference line per referenced card, in sorted card order. */
  function AbilityLines(cards: set<string>, abilities: map<string, string>): (r: seq<string>)
    ensures |r| == |cards|
    ensures forall k :: 0 <= k < |r| ==> r[k] == AbilityLine(Sorted(cards)[k], abilities)
  {
    var sorted := Sorted(cards);
    seq(|sorted|, k requires 0 <= k < |sorted| => AbilityLine(sorted[k], abilities))
  }

  /** The reference block: nothing when no card was referenced, otherwise
      the heading on its own line followed by the cards' reference lines in
      sorted card order, one per line. */
  function AbilityText(cards: set<string>, abilities: map<string, string>): (r: string)
    ensures r != [] <==> cards != {}
    ensures cards != {} ==> AbilityHeading + "\n" <= r
    ensures cards != {} ==> r == AbilityHeading + "\n" + Join("\n", AbilityLines(cards, abilities))
    ensures forall c :: c in cards ==> Contains(r, AbilityLine(c, abilities))
  {
    var lines := AbilityLines(cards, abilities);
    var body := Join("\n", lines);
    forall c | c in cards ensures Contains(AbilityHeading + "\n" + body, AbilityLine(c, abilities)) {
      var k :| 0 <= k < |Sorted(cards)| && Sorted(cards)[k] == c;
      JoinContains("\n", lines, k);
      ContainsInfix(AbilityHeading + "\n", body, [], lines[k]);
      assert AbilityHeading + "\n" + body + [] == AbilityHeading + "\n" + body;
    }
    if lines == [] then [] else AbilityHeading + "\n" + body
  }

  /** `part for part in parts if part`. */
  function NonEmpty(parts: seq<string>): (r: seq<string>)
    ensures forall k :: 0 <= k < |r| ==> r[k] != []
    ensures IsSubsequence(r, parts)
    decreases |parts|
  {
    if parts == [] then []
    else if parts[0] == [] then NonEmpty(parts[1..])
    else
      var rest := NonEmpty(parts[1..]);
      assert ([parts[0]] + rest)[1..] == rest;
      [parts[0]] + rest
  }

  /** The filter drops the empty parts and nothing else: every non-empty
      part is kept, as often as it occurs. */
  lemma {:induction false} NonEmptyKeepsOthers(parts: seq<string>)
    ensures multiset(NonEmpty(parts)) == multiset(parts)[[] := 0]
    decreases |parts|
  {
    if parts != [] {
      NonEmptyKeepsOthers(parts[1..]);
      assert parts == [parts[0]] + parts[1..];
      assert multiset(parts) == multiset([parts[0]]) + multiset(parts[1..]);
    }
  }

  /** Every referenced card gets exactly one reference line, which names
      it with its ability or the placeholder, and the lines run in strictly
      increasing card order. */
  lemma AbilityLinesSpec(cards: set<string>, abilities: map<string, string>)
    ensures var lines := AbilityLines(cards, abilities);
            var sorted := Sorted(cards);
            && |lines| == |cards|
            && (forall c :: c in cards ==> exists k :: 0 <= k < |lines| && sorted[k] == c
                                                     && lines[k] == AbilityLine(c, abilities))
            && (forall i, j :: 0 <= i < j < |lines| ==> LessEq(sorted[i], sorted[j]) && sorted[i] != sorted[j])
  {
    var sorted := Sorted(cards);
    forall c | c in cards
      ensures exists k :: 0 <= k < |sorted| && sorted[k] == c
                          && AbilityLines(cards, abilities)[k] == AbilityLine(c, abilities)
    {
      var k :| 0 <= k < |sorted| && sorted[k] == c;
    }
  }

  /** Filtering the parts keeps the header, the section text when there is
      any and the reference block when there is one; the empty separator
      part never survives. */
  lemma NonEmptyParts(header: string, sectionsText: string, abilityText: string)
    requires header != []
    ensures NonEmpty([header, sectionsText] + (if abilityText != [] then ["", abilityText] else []))
            == [header] + (if sectionsText != [] then [sectionsText] else [])
               + (if abilityText != [] then [abilityText] else [])
  {
    var empty: seq<string> := [];
    var tail: seq<string> := if abilityText != [] then [""] + ([abilityText] + empty) else empty;
    assert [header, sectionsText] + (if abilityText != [] then ["", abilityText] else [])
           == [header] + ([sectionsText] + tail);
    if abilityText != [] {
      NonEmptyCons(abilityText, empty);
      NonEmptyCons("", [abilityText] + empty);
    }
    NonEmptyCons(sectionsText, tail);
    NonEmptyCons(header, [sectionsText] + tail);
  }

  /** Filtering a part followed by more parts. */
  lemma NonEmptyCons(part: string, rest: seq<string>)
    ensures NonEmpty([part] + rest) == (if part == [] then [] else [part]) + NonEmpty(rest)
  {
    assert ([part] + rest)[1..] == rest;
  }

  /** What follows the header line: the section text and the reference
      block, each on a line of its own when present. */
  function LayoutTail(sectionsText: string, abilityText: string): string {
    (if sectionsText != [] then "\n" + sectionsText else [])
    + (if abilityText != [] then "\n" + abilityText else [])
  }

  /** Joining the kept parts puts each on its own line. */
  lemma JoinParts(header: string, sectionsText: string, abilityText: string)
    ensures Join("\n", [header] + (if sectionsText != [] then [sectionsText] else [])
                       + (if abilityText != [] then [abilityText] else []))
            == header + LayoutTail(sectionsText, abilityText)
  {
    var kept := [header] + (if sectionsText != [] then [sectionsText] else [])
                + (if abilityText != [] then [abilityText] else []);
    if sectionsText != [] && abilityText != [] {
      assert kept[1..] == [sectionsText, abilityText];
      assert kept[1..][1..] == [abilityText];
      assert Join("\n", kept[1..]) == sectionsText + "\n" + abilityText;
      assert Join("\n", kept) == header + "\n" + (sectionsText + "\n" + abilityText);
      assert LayoutTail(sectionsText, abilityText) == "\n" + sectionsText + "\n" + abilityText;
    } else if sectionsText != [] {
      assert kept[1..] == [sectionsText];
    } else if abilityText != [] {
      assert kept[1..] == [abilityText];
    } else {
      assert kept == [header];
    }
  }

  /** A heading that ends in a non-space character, followed by a line
      break, survives trailing whitespace removal of the layout. */
  lemma HeadingSurvives(header: string, sectionsText: string, heading: string, body: string)
    requires heading != [] && !IsSpace(heading[|heading| - 1])
    ensures Contains(StripRight(header + LayoutTail(sectionsText, heading + "\n" + body)), heading)
  {
    var upToHeading := header + (if sectionsText != [] then "\n" + sectionsText else []) + "\n" + heading;
    assert header + LayoutTail(sectionsText, heading + "\n" + body) == upToHeading + ("\n" + body);
    StripRightKeepsPrefix(upToHeading, "\n" + body);
    var prompt := StripRight(upToHeading + ("\n" + body));
    var at := |upToHeading| - |heading|;
    assert prompt[at..at + |heading|] == upToHeading[at..] == heading;
    OccursAtContains(prompt, heading, at);
  }

  /** When some card was referenced the prompt carries the reference
      heading. */
  lemma ToPromptHasReference(state: GameState, abilities: map<string, string>)
    requires state.referencedCards != {}
    ensures Contains(state.ToPrompt(abilities), AbilityHeading)
  {
    var abilityText := AbilityText(state.referencedCards, abilities);
    var body := abilityText[|AbilityHeading| + 1..];
    assert abilityText == AbilityHeading + "\n" + body;
    HeadingSurvives(PromptHeader, Strip(Join("\n", SectionBlocks(state.sections))), AbilityHeading, body);
  }
}
