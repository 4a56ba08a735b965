/** Reconciling the full card roster with the ability file: which roster
    cards have no ability entry. */
module CardFinder {
  import opened Text
  import opened Files
  import opened ReadCardAbilities

  /** `load_card_names`: a missing roster fails, any existing one loads to
      the distinct trimmed non-blank lines of the file; none of them is
      empty or has whitespace at either end. */
  function LoadCardNames(file: TextFile): (r: Result<set<string>>)
    ensures file.Missing? <==> r == Err(FileNotFound)
    ensures file.Present? <==> r.Ok?
    ensures r.Ok? ==> forall n :: n in r.value ==> n != [] && IsStripped(n)
    ensures r.Ok? ==> forall n :: n in r.value <==>
                        exists i :: 0 <= i < |file.lines| && !IsBlank(file.lines[i]) && Strip(file.lines[i]) == n
  {
    match file
    case Missing => Err(FileNotFound)
    case Present(lines) =>
      var names := set line | line in lines && !IsBlank(line) :: Strip(line);
      assert forall n :: n in names ==> n != [] && IsStripped(n) by {
        forall line | line in lines ensures IsStripped(Strip(line)) {
          StripSpec(line);
        }
      }
      assert forall n :: n in names <==>
               exists i :: 0 <= i < |lines| && !IsBlank(lines[i]) && Strip(lines[i]) == n by {
        forall n | n in names ensures exists i :: 0 <= i < |lines| && !IsBlank(lines[i]) && Strip(lines[i]) == n {
          var line :| line in lines && !IsBlank(line) && Strip(line) == n;
          var i :| 0 <= i < |lines| && lines[i] == line;
        }
      }
      Ok(names)
  }

  /** `find_missing_cards`: the roster is loaded first, then the ability
      file, and either failure propagates; otherwise the result is the
      roster names that are not ability keys. */
  function FindMissingCards(rosterFile: TextFile, abilitiesFile: TextFile): (r: Result<set<string>>)
    ensures rosterFile.Missing? ==> r == Err(FileNotFound)
    ensures rosterFile.Present? && CardAbilities(abilitiesFile).Err? ==> r == Err(CardAbilities(abilitiesFile).error)
    ensures rosterFile.Present? && CardAbilities(abilitiesFile).Ok? ==> r.Ok?
    ensures r.Ok? ==>
              var names := LoadCardNames(rosterFile).value;
              var keys := CardAbilities(abilitiesFile).value.Keys;
              && r.value <= names
              && r.value !! keys
              && forall n :: n in names && n !in keys ==> n in r.value
  {
    match LoadCardNames(rosterFile)
    case Err(e) => Err(e)
    case Ok(allCards) =>
      match CardAbilities(abilitiesFile)
      case Err(e) => Err(e)
      case Ok(abilities) => Ok(allCards - abilities.Keys)
  }

  /** When every roster name has an ability entry nothing is reported. */
  lemma NoneMissingWhenAllListed(rosterFile: TextFile, abilitiesFile: TextFile)
    requires LoadCardNames(rosterFile).Ok? && CardAbilities(abilitiesFile).Ok?
    requires LoadCardNames(rosterFile).value <= CardAbilities(abilitiesFile).value.Keys
    ensures FindMissingCards(rosterFile, abilitiesFile) == Ok({})
  {
    var r := FindMissingCards(rosterFile, abilitiesFile);
    assert rosterFile.Present?;
    assert r.Ok?;
    assert r.value == {} by {
      assert forall n :: n !in r.value;
    }
  }

  /** A non-blank ability line without a colon makes the reconciliation
      fail with the loader's unpacking error. */
  lemma MalformedAbilitiesFailFind(rosterLines: seq<string>, abilityLines: seq<string>, i: int)
    requires 0 <= i < |abilityLines| && !IsBlank(abilityLines[i]) && ':' !in abilityLines[i]
    ensures FindMissingCards(Present(rosterLines), Present(abilityLines)) == Err(NotEnoughValues)
  {
    ParseFailsIffMissingColon(map[], abilityLines);
  }
}
