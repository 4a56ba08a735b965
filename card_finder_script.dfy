/** The older reconciliation script: the roster is kept as a list in file
    order, and a card counts as present when its name occurs anywhere in
    the raw text of the ability file. */
module CardFinderScript {
  import opened Text
  import opened Files
  import opened ReadCardAbilities
  import CardFinder

  /** The roster list comprehension: the trimmed non-blank lines, in file
      order, duplicates kept. */
  function Roster(lines: seq<string>): (r: seq<string>)
    ensures |r| == NonBlankCount(lines)
    ensures forall k :: 0 <= k < |r| ==> r[k] != [] && IsStripped(r[k])
    decreases |lines|
  {
    if lines == [] then []
    else if IsBlank(lines[0]) then Roster(lines[1..])
    else
      StripSpec(lines[0]);
      [Strip(lines[0])] + Roster(lines[1..])
  }

  /** The roster of two stretches of lines is the two rosters one after
      the other: order and repetitions are kept. */
  lemma {:induction false} RosterAppend(a: seq<string>, b: seq<string>)
    ensures Roster(a + b) == Roster(a) + Roster(b)
    decreases |a|
  {
    if a == [] {
      assert a + b == b;
    } else {
      assert (a + b)[1..] == a[1..] + b;
      RosterAppend(a[1..], b);
    }
  }

  lemma {:induction false} RosterMembers(lines: seq<string>, x: string)
    ensures x in Roster(lines) <==>
            exists i :: 0 <= i < |lines| && !IsBlank(lines[i]) && Strip(lines[i]) == x
    decreases |lines|
  {
    if lines != [] {
      RosterMembers(lines[1..], x);
      if exists i :: 0 <= i < |lines| && !IsBlank(lines[i]) && Strip(lines[i]) == x {
        var i :| 0 <= i < |lines| && !IsBlank(lines[i]) && Strip(lines[i]) == x;
        if i > 0 { assert lines[1..][i - 1] == lines[i]; }
      }
      if exists i :: 0 <= i < |lines[1..]| && !IsBlank(lines[1..][i]) && Strip(lines[1..][i]) == x {
        var i :| 0 <= i < |lines[1..]| && !IsBlank(lines[1..][i]) && Strip(lines[1..][i]) == x;
        assert lines[i + 1] == lines[1..][i];
      }
    }
  }

  /** The list holds exactly the names the set-based loader returns. */
  lemma RosterElementsAreCardNames(lines: seq<string>)
    ensures forall x :: x in Roster(lines) <==> x in CardFinder.LoadCardNames(Present(lines)).value
  {
    forall x ensures x in Roster(lines) <==> x in CardFinder.LoadCardNames(Present(lines)).value {
      RosterMembers(lines, x);
    }
  }

  /** The filter comprehension: the roster cards that do not occur in the
      ability text, in roster order. */
  function MissingFrom(roster: seq<string>, abilities: string): (r: seq<string>)
    ensures IsSubsequence(r, roster)
    ensures forall c :: c in r <==> c in roster && !Contains(abilities, c)
    ensures forall c :: multiset(r)[c] == (if Contains(abilities, c) then 0 else multiset(roster)[c])
    decreases |roster|
  {
    if roster == [] then []
    else
      var rest := MissingFrom(roster[1..], abilities);
      assert roster == [roster[0]] + roster[1..];
      assert multiset(roster) == multiset([roster[0]]) + multiset(roster[1..]);
      assert forall c :: c in roster <==> c == roster[0] || c in roster[1..];
      if Contains(abilities, roster[0]) then
        rest
      else
        assert ([roster[0]] + rest)[1..] == rest;
        [roster[0]] + rest
  }

  /** The whole script: both files are opened (the roster first) and the
      ability file is only read as text, so a line without a colon is no
      error here. */
  function FindMissingCards(rosterFile: TextFile, abilitiesFile: TextFile): (r: Result<seq<string>>)
    ensures r.Ok? <==> rosterFile.Present? && abilitiesFile.Present?
    ensures r.Err? ==> r.error == FileNotFound
    ensures r.Ok? ==> IsSubsequence(r.value, Roster(rosterFile.lines))
    ensures r.Ok? ==> forall c :: c in r.value <==>
              c in Roster(rosterFile.lines) && !Contains(Concat(abilitiesFile.lines), c)
    ensures r.Ok? ==>
              forall c :: multiset(r.value)[c] ==
                (if Contains(Concat(abilitiesFile.lines), c) then 0 else multiset(Roster(rosterFile.lines))[c])
  {
    match rosterFile
    case Missing => Err(FileNotFound)
    case Present(rosterLines) =>
      match abilitiesFile
      case Missing => Err(FileNotFound)
      case Present(abilityLines) => Ok(MissingFrom(Roster(rosterLines), Concat(abilityLines)))
  }

  /** Every key the ability loader would produce occurs in the raw text. */
  lemma KeysOccurInText(lines: seq<string>, m: map<string, string>, k: string)
    requires ParseAbilities(lines) == Ok(m)
    requires k in m
    ensures Contains(Concat(lines), k)
  {
    ParseResult(lines, m);
    var i :| 0 <= i < |lines| && !IsBlank(lines[i]) && Key(lines[i]) == k;
    KeyAndValueInLine(lines[i]);
    LineInConcat(lines, i);
    ContainsTransitive(Concat(lines), lines[i], k);
  }

  /** The substring test is weaker than the exact-key test: whenever the
      ability file loads, every card this script reports is also reported
      by the set-based reconciliation. */
  lemma SubstringCheckReportsSubset(rosterLines: seq<string>, abilityLines: seq<string>)
    requires ParseAbilities(abilityLines).Ok?
    ensures forall c :: c in FindMissingCards(Present(rosterLines), Present(abilityLines)).value ==>
              c in CardFinder.FindMissingCards(Present(rosterLines), Present(abilityLines)).value
  {
    var m := ParseAbilities(abilityLines).value;
    RosterElementsAreCardNames(rosterLines);
    forall c | c in FindMissingCards(Present(rosterLines), Present(abilityLines)).value
      ensures c in CardFinder.FindMissingCards(Present(rosterLines), Present(abilityLines)).value
    {
      if c in m {
        KeysOccurInText(abilityLines, m, c);
      }
    }
  }

  /** The converse fails: when the ability file's only line gives the
      ability of another card as the roster card's name (`Ox:Hulk` for the
      roster `Hulk`), the key test reports the card and the substring test
      does not. */
  lemma NameInsideAbilityTextHidden(card: string, other: string)
    requires card != [] && IsStripped(card)
    requires other != [] && IsStripped(other) && ':' !in other
    requires card != other
    ensures CardFinder.FindMissingCards(Present([card]), Present([other + ":" + card])) == Ok({card})
    ensures FindMissingCards(Present([card]), Present([other + ":" + card])) == Ok([])
  {
    var line: string := other + ":" + card;
    var lines: seq<string> := [line];
    StrippedIsFixpoint(card);
    StrippedIsFixpoint(other);
    SplitOnceAtFirst(line, ':', other, card);
    assert !IsBlank(line) by {
      BlankIffAllSpace(line);
      assert line[0] == other[0];
    }
    assert ParseAbilities(lines) == Ok(map[other := card]) by {
      assert lines[0] == line && lines[1..] == [];
      assert SplitOnce(lines[0], ':') == [other, card];
      assert ParseFrom(map[][other := card], lines[1..]) == Ok(map[other := card]);
    }
    assert Roster([card]) == [card] by {
      assert |[card][1..]| == 0;
    }
    var names := CardFinder.LoadCardNames(Present([card])).value;
    assert names == {card} by {
      assert forall x :: x in names <==> x == card;
    }
    assert Concat(lines) == line by {
      assert lines[1..] == [];
    }
    assert OccursAt(line, card, |other| + 1);
    assert CardAbilities(Present(lines)) == Ok(map[other := card]);
    assert map[other := card].Keys == {other};
    assert names - {other} == {card};
  }
}
