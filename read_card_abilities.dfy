/** Loading `card_abilities.txt`: one `Card Name: ability text` entry per
    line, read into a name-to-ability map. */
module ReadCardAbilities {
  import opened Text
  import opened Files

  /** `s.split(sep, 1)`: the whole string when `sep` does not occur,
      otherwise the text before the first `sep` and everything after it. */
  function SplitOnce(s: string, sep: char): (parts: seq<string>)
    ensures 1 <= |parts| <= 2
    ensures |parts| == 2 <==> sep in s
    ensures |parts| == 1 ==> parts[0] == s
    ensures |parts| == 2 ==> s == parts[0] + [sep] + parts[1] && sep !in parts[0]
    decreases |s|
  {
    if s == [] then [s]
    else if s[0] == sep then [[], s[1..]]
    else
      var rest := SplitOnce(s[1..], sep);
      if |rest| == 1 then [s]
      else
        assert s == [s[0]] + s[1..];
        [[s[0]] + rest[0], rest[1]]
  }

  /** Splitting at the first separator is the only way to split: a string
      written as `a + [sep] + b` with no separator in `a` splits into `a`
      and `b`, however many separators `b` holds. */
  lemma SplitOnceAtFirst(s: string, sep: char, a: string, b: string)
    requires s == a + [sep] + b && sep !in a
    ensures SplitOnce(s, sep) == [a, b]
  {
    assert s[|a|] == sep;
    var parts := SplitOnce(s, sep);
    var p := parts[0];
    assert s[|p|] == sep;
    assert forall k :: 0 <= k < |a| ==> s[k] == a[k] != sep;
    assert forall k :: 0 <= k < |p| ==> s[k] == p[k] != sep;
    assert |p| == |a|;
    assert p == s[..|p|] == a;
    assert parts[1] == s[|p| + 1..] == b;
  }

  /** The card name a line defines: the trimmed text before its first colon. */
  function Key(line: string): string {
    Strip(SplitOnce(line, ':')[0])
  }

  /** The ability a line defines: the trimmed text after its first colon. */
  function Value(line: string): string {
    var parts := SplitOnce(line, ':');
    if |parts| == 2 then Strip(parts[1]) else []
  }

  /** The loop of `load_card_abilities` from a given dictionary onwards:
      blank lines are skipped, a line without a colon fails the unpacking,
      any other line (re)binds its key. */
  function ParseFrom(acc: map<string, string>, lines: seq<string>): Result<map<string, string>>
    decreases |lines|
  {
    if lines == [] then Ok(acc)
    else if IsBlank(lines[0]) then ParseFrom(acc, lines[1..])
    else
      var parts := SplitOnce(lines[0], ':');
      if |parts| != 2 then Err(NotEnoughValues)
      else ParseFrom(acc[Strip(parts[0]) := Strip(parts[1])], lines[1..])
  }

  function ParseAbilities(lines: seq<string>): Result<map<string, string>> {
    ParseFrom(map[], lines)
  }

  /** The number of lines that are not blank. */
  function NonBlankCount(lines: seq<string>): nat
    decreases |lines|
  {
    if lines == [] then 0
    else (if IsBlank(lines[0]) then 0 else 1) + NonBlankCount(lines[1..])
  }

  /** The keys the non-blank lines define. */
  function LineKeys(lines: seq<string>): set<string>
    decreases |lines|
  {
    if lines == [] then {}
    else (if IsBlank(lines[0]) then {} else {Key(lines[0])}) + LineKeys(lines[1..])
  }

  /** Line `i` is the last non-blank line defining its key. */
  predicate LastEntry(lines: seq<string>, i: int) {
    && 0 <= i < |lines| && !IsBlank(lines[i])
    && forall j :: i < j < |lines| && !IsBlank(lines[j]) ==> Key(lines[j]) != Key(lines[i])
  }

  /** What `load_card_abilities(path)` returns or raises. */
  function CardAbilities(file: TextFile): (r: Result<map<string, string>>)
    ensures file.Missing? ==> r == Err(FileNotFound)
    ensures r.Ok? ==> |r.value.Keys| <= NonBlankCount(file.lines)
  {
    match file
    case Missing => Err(FileNotFound)
    case Present(lines) =>
      var r := ParseAbilities(lines);
      if r.Ok? then
        ParseResult(lines, r.value);
        LineKeysBound(lines);
        assert |r.value.Keys| <= |LineKeys(lines)| by {
          assert r.value.Keys <= LineKeys(lines);
          SubsetCard(r.value.Keys, LineKeys(lines));
        }
        r
      else r
  }

  /** `load_card_abilities`: raises for a missing path before reading,
      then fills the dictionary line by line. */
  method LoadCardAbilities(file: TextFile) returns (r: Result<map<string, string>>)
    ensures r == CardAbilities(file)
  {
    if file.Missing? {
      return Err(FileNotFound);
    }
    var lines := file.lines;
    var cardAbilities: map<string, string> := map[];
    var i := 0;
    assert lines[0..] == lines;
    while i < |lines|
      invariant 0 <= i <= |lines|
      invariant ParseFrom(cardAbilities, lines[i..]) == ParseAbilities(lines)
    {
      var line := lines[i];
      assert lines[i..][1..] == lines[i + 1..];
      if !IsBlank(line) {
        var parts := SplitOnce(line, ':');
        if |parts| != 2 {
          return Err(NotEnoughValues);
        }
        cardAbilities := cardAbilities[Strip(parts[0]) := Strip(parts[1])];
      }
      i := i + 1;
    }
    return Ok(cardAbilities);
  }

  lemma SubsetCard(a: set<string>, b: set<string>)
    requires a <= b
    ensures |a| <= |b|
  {
    assert b == a + (b - a);
  }

  /** Loading fails exactly when some non-blank line has no colon, and then
      with the unpacking error. */
  lemma {:induction false} ParseFailsIffMissingColon(acc: map<string, string>, lines: seq<string>)
    ensures ParseFrom(acc, lines).Ok? || ParseFrom(acc, lines) == Err(NotEnoughValues)
    ensures ParseFrom(acc, lines).Err? <==>
            exists i :: 0 <= i < |lines| && !IsBlank(lines[i]) && ':' !in lines[i]
    decreases |lines|
  {
    if lines != [] {
      ParseFailsIffMissingColon(if IsBlank(lines[0]) || ':' !in lines[0] then acc
                                else acc[Key(lines[0]) := Value(lines[0])], lines[1..]);
      if exists i :: 0 <= i < |lines| && !IsBlank(lines[i]) && ':' !in lines[i] {
        var i :| 0 <= i < |lines| && !IsBlank(lines[i]) && ':' !in lines[i];
        if i > 0 { assert lines[1..][i - 1] == lines[i]; }
      }
      if exists i :: 0 <= i < |lines[1..]| && !IsBlank(lines[1..][i]) && ':' !in lines[1..][i] {
        var i :| 0 <= i < |lines[1..]| && !IsBlank(lines[1..][i]) && ':' !in lines[1..][i];
        assert lines[i + 1] == lines[1..][i];
      }
    }
  }

  /** Parsing `a + c` is parsing `a`, then parsing `c` from its result. */
  lemma {:induction false} ParseFromAppend(acc: map<string, string>, a: seq<string>, c: seq<string>)
    ensures ParseFrom(acc, a + c) ==
            (if ParseFrom(acc, a).Ok? then ParseFrom(ParseFrom(acc, a).value, c) else ParseFrom(acc, a))
    decreases |a|
  {
    if a != [] {
      assert (a + c)[1..] == a[1..] + c;
      if !IsBlank(a[0]) && |SplitOnce(a[0], ':')| == 2 {
        var parts := SplitOnce(a[0], ':');
        ParseFromAppend(acc[Strip(parts[0]) := Strip(parts[1])], a[1..], c);
      } else {
        ParseFromAppend(acc, a[1..], c);
      }
    } else {
      assert a + c == c;
    }
  }

  /** A whitespace-only line, wherever it stands, changes nothing. */
  lemma BlankLineIgnored(a: seq<string>, blank: string, c: seq<string>)
    requires IsBlank(blank)
    ensures ParseAbilities(a + [blank] + c) == ParseAbilities(a + c)
  {
    assert a + [blank] + c == a + ([blank] + c);
    ParseFromAppend(map[], a, [blank] + c);
    ParseFromAppend(map[], a, c);
    assert ([blank] + c)[1..] == c;
  }

  lemma {:induction false} LineKeysMembers(lines: seq<string>, k: string)
    ensures k in LineKeys(lines) <==>
            exists i :: 0 <= i < |lines| && !IsBlank(lines[i]) && Key(lines[i]) == k
    decreases |lines|
  {
    if lines != [] {
      LineKeysMembers(lines[1..], k);
      if exists i :: 0 <= i < |lines| && !IsBlank(lines[i]) && Key(lines[i]) == k {
        var i :| 0 <= i < |lines| && !IsBlank(lines[i]) && Key(lines[i]) == k;
        if i > 0 { assert lines[1..][i - 1] == lines[i]; }
      }
      if exists i :: 0 <= i < |lines[1..]| && !IsBlank(lines[1..][i]) && Key(lines[1..][i]) == k {
        var i :| 0 <= i < |lines[1..]| && !IsBlank(lines[1..][i]) && Key(lines[1..][i]) == k;
        assert lines[i + 1] == lines[1..][i];
      }
    }
  }

  /** No more keys than non-blank lines. */
  lemma {:induction false} LineKeysBound(lines: seq<string>)
    ensures |LineKeys(lines)| <= NonBlankCount(lines)
    decreases |lines|
  {
    if lines != [] {
      LineKeysBound(lines[1..]);
    }
  }

  /** The loop's effect on the keys, from an arbitrary starting
      dictionary: it adds the keys of the non-blank lines and leaves the
      value of every other key alone. */
  lemma {:induction false} ParseFromKeys(acc: map<string, string>, lines: seq<string>, m: map<string, string>)
    requires ParseFrom(acc, lines) == Ok(m)
    ensures m.Keys == acc.Keys + LineKeys(lines)
    ensures forall k :: k in acc && k !in LineKeys(lines) ==> m[k] == acc[k]
    decreases |lines|
  {
    if lines != [] {
      var next := if IsBlank(lines[0]) then acc else acc[Key(lines[0]) := Value(lines[0])];
      assert ParseFrom(next, lines[1..]) == Ok(m);
      ParseFromKeys(next, lines[1..], m);
    }
  }

  /** The loop binds each key to the value of the last line defining it,
      whatever the starting dictionary. */
  lemma {:induction false} ParseFromLast(acc: map<string, string>, lines: seq<string>, m: map<string, string>, i: int)
    requires ParseFrom(acc, lines) == Ok(m)
    requires LastEntry(lines, i)
    ensures Key(lines[i]) in m && m[Key(lines[i])] == Value(lines[i])
    decreases |lines|
  {
    var rest := lines[1..];
    var next := acc[Key(lines[0]) := Value(lines[0])];
    if i == 0 {
      assert ParseFrom(next, rest) == Ok(m);
      ParseFromKeys(next, rest, m);
      LineKeysMembers(rest, Key(lines[0]));
      assert Key(lines[0]) !in LineKeys(rest);
    } else {
      var n := if IsBlank(lines[0]) then acc else next;
      assert ParseFrom(n, rest) == Ok(m);
      assert rest[i - 1] == lines[i];
      forall j | i - 1 < j < |rest| && !IsBlank(rest[j]) ensures Key(rest[j]) != Key(rest[i - 1]) {
        assert rest[j] == lines[j + 1];
      }
      ParseFromLast(n, rest, m, i - 1);
    }
  }

  /** What a successful load returns: exactly the keys of the non-blank
      lines, each bound to the value on the last line that defines it. */
  lemma ParseResult(lines: seq<string>, m: map<string, string>)
    requires ParseAbilities(lines) == Ok(m)
    ensures m.Keys == LineKeys(lines)
    ensures forall i :: 0 <= i < |lines| && !IsBlank(lines[i]) ==> Key(lines[i]) in m
    ensures forall k :: k in m ==> exists i :: 0 <= i < |lines| && !IsBlank(lines[i]) && Key(lines[i]) == k
    ensures forall i :: LastEntry(lines, i) ==> Key(lines[i]) in m && m[Key(lines[i])] == Value(lines[i])
  {
    ParseFromKeys(map[], lines, m);
    KeysFromLines(lines, m.Keys);
    forall i | LastEntry(lines, i) ensures Key(lines[i]) in m && m[Key(lines[i])] == Value(lines[i]) {
      ParseFromLast(map[], lines, m, i);
    }
  }

  lemma KeysFromLines(lines: seq<string>, keys: set<string>)
    requires keys == LineKeys(lines)
    ensures forall i :: 0 <= i < |lines| && !IsBlank(lines[i]) ==> Key(lines[i]) in keys
    ensures forall k :: k in keys ==> exists i :: 0 <= i < |lines| && !IsBlank(lines[i]) && Key(lines[i]) == k
  {
    forall i | 0 <= i < |lines| && !IsBlank(lines[i]) ensures Key(lines[i]) in keys {
      LineKeysMembers(lines, Key(lines[i]));
    }
    forall k | k in keys ensures exists i :: 0 <= i < |lines| && !IsBlank(lines[i]) && Key(lines[i]) == k {
      LineKeysMembers(lines, k);
    }
  }

  /** Every defined key, and every value, is a substring of its line, so
      of the file's whole text. */
  lemma KeyAndValueInLine(line: string)
    ensures Contains(line, Key(line))
    ensures Contains(line, Value(line))
  {
    var parts := SplitOnce(line, ':');
    StripContained(parts[0]);
    if |parts| == 2 {
      ContainsInfix([], parts[0], [':'] + parts[1], Key(line));
      assert [] + parts[0] + ([':'] + parts[1]) == line;
      StripContained(parts[1]);
      ContainsInfix(parts[0] + [':'], parts[1], [], Value(line));
      assert parts[0] + [':'] + parts[1] + [] == line;
    } else {
      assert OccursAt(line, Value(line), 0);
    }
  }
}
