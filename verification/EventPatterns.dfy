/** Webhook event subscriptions: patterns are normalised, joined into one comma-separated column,
    and split again whenever an event is matched. */
module EventPatterns {
  import opened Common

  /** What the runtime's character tables say is alphanumeric and what is white space. */
  datatype CharClass = CharClass(alnum: char -> bool, space: char -> bool)

  const PUNCTUATION: set<char> := {'.', '_', '-', '*'}

  /** No character is both, the comma is neither letter nor digit, and none of the punctuation
      that patterns may use is white space. */
  ghost predicate Lawful(cc: CharClass) {
    && (forall c :: cc.alnum(c) ==> c != ',' && !cc.space(c))
    && (forall c :: c in PUNCTUATION ==> !cc.space(c))
  }

  function StripLeft(cc: CharClass, s: string): string {
    if s != "" && cc.space(s[0]) then StripLeft(cc, s[1..]) else s
  }

  function StripRight(cc: CharClass, s: string): string {
    if s != "" && cc.space(s[|s| - 1]) then StripRight(cc, s[..|s| - 1]) else s
  }

  function Strip(cc: CharClass, s: string): string {
    StripRight(cc, StripLeft(cc, s))
  }

  function Split(s: string): (parts: seq<string>)
    ensures |parts| > 0
  {
    if s == "" then [""]
    else
      var rest := Split(s[1..]);
      if s[0] == ',' then [""] + rest else [[s[0]] + rest[0]] + rest[1..]
  }

  function Join(parts: seq<string>): string {
    if parts == [] then "" else if |parts| == 1 then parts[0] else parts[0] + "," + Join(parts[1..])
  }

  // ---------------------------------------------------------------- accepting patterns

  predicate AllowedCharacters(cc: CharClass, event: string) {
    forall c :: c in event ==> cc.alnum(c) || c in PUNCTUATION
  }

  predicate Allowed(cc: CharClass, event: string) {
    0 < |event| <= 80 && (event == "*" || AllowedCharacters(cc, event))
  }

  function Stripped(cc: CharClass, values: seq<string>): (r: seq<string>)
    ensures |r| == |values| && forall i :: 0 <= i < |r| ==> r[i] == Strip(cc, values[i])
  {
    seq(|values|, i requires 0 <= i < |values| => Strip(cc, values[i]))
  }

  /** The first occurrence of every element, in order. */
  function FirstOccurrences(q: seq<string>): (r: seq<string>)
    ensures forall x :: x in r <==> x in q
    ensures forall i, j :: 0 <= i < j < |r| ==> r[i] != r[j]
    ensures q != [] ==> r != []
  {
    if q == [] then []
    else
      var r := FirstOccurrences(q[..|q| - 1]);
      if q[|q| - 1] in q[..|q| - 1] then r else r + [q[|q| - 1]]
  }

  lemma FirstOccurrencesNext(q: seq<string>, i: nat)
    requires i < |q|
    ensures var r := FirstOccurrences(q[..i]);
            FirstOccurrences(q[..i + 1]) == if q[i] in r then r else r + [q[i]]
  {
    assert q[..i + 1][..i] == q[..i];
  }

  predicate AllAllowed(cc: CharClass, patterns: seq<string>) {
    patterns == [] || (AllAllowed(cc, patterns[..|patterns| - 1]) && Allowed(cc, patterns[|patterns| - 1]))
  }

  lemma {:induction false} AllAllowedAt(cc: CharClass, patterns: seq<string>, i: nat)
    requires AllAllowed(cc, patterns) && i < |patterns|
    ensures Allowed(cc, patterns[i])
  {
    if i < |patterns| - 1 {
      AllAllowedAt(cc, patterns[..|patterns| - 1], i);
    }
  }

  lemma AllAllowedNext(cc: CharClass, patterns: seq<string>, i: nat)
    requires i < |patterns|
    ensures AllAllowed(cc, patterns[..i + 1]) <==> AllAllowed(cc, patterns[..i]) && Allowed(cc, patterns[i])
    ensures AllAllowed(cc, patterns) ==> Allowed(cc, patterns[i])
  {
    assert patterns[..i + 1][..i] == patterns[..i];
    if AllAllowed(cc, patterns) {
      AllAllowedAt(cc, patterns, i);
    }
  }

  predicate Acceptable(cc: CharClass, values: seq<string>) {
    AllAllowed(cc, Stripped(cc, values)) && 1 <= |FirstOccurrences(Stripped(cc, values))| <= 30
  }

  /** The two tests on one pattern. */
  method Check(cc: CharClass, event: string) returns (ok: bool)
    ensures ok <==> Allowed(cc, event)
  {
    if event == "" || |event| > 80 {
      return false;
    }
    if event != "*" && !AllowedCharacters(cc, event) {
      return false;
    }
    return true;
  }

  /** The patterns stripped and without repetitions, or None if one is refused. */
  method Clean(cc: CharClass, values: seq<string>) returns (ok: bool, cleaned: seq<string>)
    ensures ok <==> AllAllowed(cc, Stripped(cc, values))
    ensures ok ==> cleaned == FirstOccurrences(Stripped(cc, values))
  {
    cleaned := [];
    ghost var given := Stripped(cc, values);
    for i := 0 to |values|
      invariant AllAllowed(cc, given[..i])
      invariant cleaned == FirstOccurrences(given[..i])
    {
      var event := Strip(cc, values[i]);
      AllAllowedNext(cc, given, i);
      ok := Check(cc, event);
      if !ok {
        return;
      }
      FirstOccurrencesNext(given, i);
      if event !in cleaned {
        cleaned := cleaned + [event];
      }
    }
    assert given[..|values|] == given;
    ok := true;
  }

  /** The column text for a list of patterns, or a refusal. */
  method Events(cc: CharClass, values: seq<string>) returns (r: Option<string>)
    ensures r == if Acceptable(cc, values) then Some(Join(FirstOccurrences(Stripped(cc, values)))) else None
  {
    var ok, cleaned := Clean(cc, values);
    if !ok {
      return None;
    }
    if |cleaned| == 0 || |cleaned| > 30 {
      return None;
    }
    return Some(Join(cleaned));
  }

  // ---------------------------------------------------------------- what is accepted

  predicate AllSpace(cc: CharClass, s: string) {
    forall i :: 0 <= i < |s| ==> cc.space(s[i])
  }

  lemma {:induction false} StripLeftTrims(cc: CharClass, s: string) returns (before: string)
    ensures AllSpace(cc, before) && s == before + StripLeft(cc, s)
    ensures StripLeft(cc, s) != "" ==> !cc.space(StripLeft(cc, s)[0])
  {
    if s != "" && cc.space(s[0]) {
      before := StripLeftTrims(cc, s[1..]);
      before := [s[0]] + before;
    } else {
      before := "";
    }
  }

  lemma {:induction false} StripRightTrims(cc: CharClass, s: string) returns (after: string)
    ensures AllSpace(cc, after) && s == StripRight(cc, s) + after
    ensures StripRight(cc, s) != "" ==> !cc.space(StripRight(cc, s)[|StripRight(cc, s)| - 1])
  {
    if s != "" && cc.space(s[|s| - 1]) {
      after := StripRightTrims(cc, s[..|s| - 1]);
      after := after + [s[|s| - 1]];
      assert s == s[..|s| - 1] + [s[|s| - 1]];
    } else {
      after := "";
    }
  }

  /** Stripping takes white space off both ends, all of it, and nothing else. */
  lemma StripTrims(cc: CharClass, s: string) returns (before: string, after: string)
    ensures s == before + Strip(cc, s) + after && AllSpace(cc, before) && AllSpace(cc, after)
    ensures var t := Strip(cc, s); t != "" ==> !cc.space(t[0]) && !cc.space(t[|t| - 1])
  {
    var left := StripLeft(cc, s);
    before := StripLeftTrims(cc, s);
    after := StripRightTrims(cc, left);
    assert s == before + (Strip(cc, s) + after);
    assert Strip(cc, s) != "" ==> Strip(cc, s)[0] == left[0];
  }

  lemma {:induction false} AllAllowedIff(cc: CharClass, patterns: seq<string>)
    ensures AllAllowed(cc, patterns) <==> forall i :: 0 <= i < |patterns| ==> Allowed(cc, patterns[i])
  {
    if patterns != [] {
      var init := patterns[..|patterns| - 1];
      AllAllowedIff(cc, init);
      assert forall i :: 0 <= i < |init| ==> init[i] == patterns[i];
    }
  }

  lemma {:induction false} ListSize(q: seq<string>)
    requires forall i, j :: 0 <= i < j < |q| ==> q[i] != q[j]
    ensures |set x | x in q| == |q|
  {
    if q != [] {
      var init, last := q[..|q| - 1], q[|q| - 1];
      ListSize(init);
      assert (set x | x in q) == (set x | x in init) + {last};
    }
  }

  ghost predicate PlainPattern(cc: CharClass, p: string) {
    1 <= |p| <= 80 && forall c :: c in p ==> cc.alnum(c) || c == '.' || c == '_' || c == '-' || c == '*'
  }

  lemma AllowedIff(cc: CharClass, p: string)
    ensures Allowed(cc, p) <==> PlainPattern(cc, p)
  {
    assert p == "*" ==> forall c :: c in p ==> c == '*';
  }

  /** A list of patterns is accepted exactly when each, stripped, has 1 to 80 characters, all of them
      letters, digits, dots, underscores, dashes or stars, and there are 1 to 30 different ones. */
  lemma AcceptableIff(cc: CharClass, values: seq<string>)
    ensures Acceptable(cc, values)
      <==> && (forall i :: 0 <= i < |values| ==> PlainPattern(cc, Strip(cc, values[i])))
           && 1 <= |set x | x in Stripped(cc, values)| <= 30
  {
    var given := Stripped(cc, values);
    AllAllowedIff(cc, given);
    ListSize(FirstOccurrences(given));
    assert (set x | x in given) == set x | x in FirstOccurrences(given);
    forall i | 0 <= i < |values|
      ensures Allowed(cc, given[i]) <==> PlainPattern(cc, Strip(cc, values[i]))
    {
      AllowedIff(cc, given[i]);
    }
  }

  /** The patterns kept are in the order in which they first occur. */
  lemma {:induction false} FirstsInOrder(q: seq<string>, i: nat, j: nat)
    requires i < j < |FirstOccurrences(q)|
    ensures exists k :: 0 <= k < |q| && q[k] == FirstOccurrences(q)[i] && FirstOccurrences(q)[j] !in q[..k + 1]
  {
    var init, last := q[..|q| - 1], q[|q| - 1];
    var before, r := FirstOccurrences(init), FirstOccurrences(q);
    assert q == init + [last];
    if j < |before| {
      FirstsInOrder(init, i, j);
      var k :| 0 <= k < |init| && init[k] == before[i] && before[j] !in init[..k + 1];
      assert q[..k + 1] == init[..k + 1] && q[k] == r[i];
    } else {
      assert r[i] == before[i] && before[i] in before && before[i] in init;
      var k :| 0 <= k < |init| && init[k] == before[i];
      assert q[k] == r[i];
      assert last !in init;
      assert forall x :: x in q[..k + 1] ==> x in init;
    }
  }

  // ---------------------------------------------------------------- matching

  predicate EndsWithStar(p: string) {
    p != "" && p[|p| - 1] == '*'
  }

  /** One pattern: everything, the event itself, or a prefix of it followed by a star. */
  predicate PatternMatches(p: string, event: string) {
    p == "*" || p == event || (EndsWithStar(p) && p[..|p| - 1] <= event)
  }

  lemma PatternMatchesIff(p: string, event: string)
    ensures PatternMatches(p, event) <==> p == event || exists prefix: string :: p == prefix + "*" && prefix <= event
  {
    if EndsWithStar(p) {
      assert p == p[..|p| - 1] + "*";
    }
    if prefix: string :| p == prefix + "*" && prefix <= event {
      assert prefix == p[..|p| - 1];
    }
  }

  predicate EventMatches(cc: CharClass, configured: string, event: string) {
    exists i :: 0 <= i < |Split(configured)| && PatternMatches(Strip(cc, Split(configured)[i]), event)
  }

  method Matches(cc: CharClass, configured: string, event: string) returns (matched: bool)
    ensures matched <==> EventMatches(cc, configured, event)
  {
    var parts := Split(configured);
    for i := 0 to |parts|
      invariant forall j :: 0 <= j < i ==> !PatternMatches(Strip(cc, parts[j]), event)
    {
      var pattern := Strip(cc, parts[i]);
      if pattern == "*" || pattern == event {
        return true;
      }
      if EndsWithStar(pattern) && pattern[..|pattern| - 1] <= event {
        return true;
      }
    }
    return false;
  }

  // ---------------------------------------------------------------- the round trip

  lemma {:induction false} SplitOne(part: string, rest: string)
    requires ',' !in part
    ensures Split(part) == [part] && Split(part + "," + rest) == [part] + Split(rest)
  {
    if part == "" {
      assert (part + "," + rest)[1..] == rest;
    } else {
      assert (part + "," + rest)[1..] == part[1..] + "," + rest;
      SplitOne(part[1..], rest);
      assert [part[0]] + part[1..] == part;
    }
  }

  lemma {:induction false} SplitJoin(parts: seq<string>)
    requires parts != [] && forall i :: 0 <= i < |parts| ==> ',' !in parts[i]
    ensures Split(Join(parts)) == parts
  {
    if |parts| == 1 {
      SplitOne(parts[0], "");
    } else {
      var tail := parts[1..];
      assert forall i :: 0 <= i < |tail| ==> tail[i] == parts[i + 1];
      SplitJoin(tail);
      SplitOne(parts[0], Join(tail));
      assert Join(parts) == parts[0] + "," + Join(tail);
      assert [parts[0]] + tail == parts;
    }
  }

  /** Splitting loses nothing: joining the parts gives the text back, and no part has a comma. */
  lemma {:induction false} JoinSplit(s: string)
    ensures Join(Split(s)) == s && forall i :: 0 <= i < |Split(s)| ==> ',' !in Split(s)[i]
  {
    if s != "" {
      var rest, parts := Split(s[1..]), Split(s);
      JoinSplit(s[1..]);
      assert s == [s[0]] + s[1..];
      if s[0] == ',' {
        assert parts == [""] + rest && parts[1..] == rest;
        assert Join(parts) == "" + "," + Join(rest);
      } else {
        assert parts[1..] == rest[1..];
        assert |rest| > 1 ==> Join(rest) == rest[0] + "," + Join(rest[1..]);
        assert Join(parts) == [s[0]] + Join(rest);
      }
    }
  }

  lemma AllowedIsPlain(cc: CharClass, event: string)
    requires Lawful(cc) && Allowed(cc, event)
    ensures ',' !in event && Strip(cc, event) == event
  {
    assert event[0] in event && event[|event| - 1] in event;
  }

  lemma KeptIsAllowed(cc: CharClass, values: seq<string>, i: nat)
    requires AllAllowed(cc, Stripped(cc, values)) && i < |FirstOccurrences(Stripped(cc, values))|
    ensures Allowed(cc, FirstOccurrences(Stripped(cc, values))[i])
  {
    var given, parts := Stripped(cc, values), FirstOccurrences(Stripped(cc, values));
    assert parts[i] in parts && parts[i] in given;
    var k :| 0 <= k < |given| && given[k] == parts[i];
    AllAllowedAt(cc, given, k);
  }

  /** Splitting the stored text gives back the stripped patterns, first occurrences only, in order. */
  lemma EventsRoundTrip(cc: CharClass, values: seq<string>)
    requires Lawful(cc) && Acceptable(cc, values)
    ensures Split(Join(FirstOccurrences(Stripped(cc, values)))) == FirstOccurrences(Stripped(cc, values))
  {
    var parts := FirstOccurrences(Stripped(cc, values));
    forall i | 0 <= i < |parts|
      ensures ',' !in parts[i]
    {
      KeptIsAllowed(cc, values, i);
      AllowedIsPlain(cc, parts[i]);
    }
    SplitJoin(parts);
  }

  /** A stored subscription matches an event exactly when one of the patterns that were given,
      stripped, equals the event or is a prefix of it with a star at the end. */
  lemma StoredMatchesIff(cc: CharClass, values: seq<string>, event: string)
    requires Lawful(cc) && Acceptable(cc, values)
    ensures EventMatches(cc, Join(FirstOccurrences(Stripped(cc, values))), event) <==>
      exists i :: 0 <= i < |values| &&
        var p := Strip(cc, values[i]); p == event || (EndsWithStar(p) && p[..|p| - 1] <= event)
  {
    EventsRoundTrip(cc, values);
    var given, parts := Stripped(cc, values), FirstOccurrences(Stripped(cc, values));
    forall i | 0 <= i < |parts|
      ensures Strip(cc, parts[i]) == parts[i]
    {
      KeptIsAllowed(cc, values, i);
      AllowedIsPlain(cc, parts[i]);
    }
    assert forall p :: PatternMatches(p, event) <==> p == event || (EndsWithStar(p) && p[..|p| - 1] <= event);
    if i :| 0 <= i < |parts| && PatternMatches(parts[i], event) {
      assert parts[i] in given;
      var k :| 0 <= k < |given| && given[k] == parts[i];
      assert Strip(cc, values[k]) == parts[i];
    }
    if k :| 0 <= k < |given| && PatternMatches(given[k], event) {
      assert given[k] in parts;
      var i :| 0 <= i < |parts| && parts[i] == given[k];
      assert PatternMatches(Strip(cc, parts[i]), event);
    }
  }
}
