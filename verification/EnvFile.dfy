/** The serve env file: validated whole, then applied without overriding the
    process environment; and the two readers of the secret that setup writes. */
module EnvFile {
  import opened Options

  // --- characters and lines ---------------------------------------------------

  /** What `str.strip` removes. */
  predicate IsSpace(c: char) {
    var u := c as int;
    0x09 <= u <= 0x0D || 0x1C <= u <= 0x20 || u == 0x85 || u == 0xA0 || u == 0x1680 ||
    0x2000 <= u <= 0x200A || u == 0x2028 || u == 0x2029 || u == 0x202F || u == 0x205F || u == 0x3000
  }

  predicate IsControl(c: char) {
    (c as int) < 0x20
  }

  predicate IsLetter(c: char) {
    'A' <= c <= 'Z' || 'a' <= c <= 'z' || c == '_'
  }

  predicate IsKey(key: string) {
    key != "" && IsLetter(key[0]) && forall c | c in key :: IsLetter(c) || '0' <= c <= '9'
  }

  /** The characters of each class, by code point. */
  lemma SpacesExactly(c: char)
    ensures IsSpace(c) <==>
      c as int in [0x09, 0x0A, 0x0B, 0x0C, 0x0D, 0x1C, 0x1D, 0x1E, 0x1F, 0x20, 0x85, 0xA0, 0x1680, 0x2000, 0x2001,
                   0x2002, 0x2003, 0x2004, 0x2005, 0x2006, 0x2007, 0x2008, 0x2009, 0x200A, 0x2028, 0x2029, 0x202F,
                   0x205F, 0x3000]
  {}

  lemma BoundariesExactly(c: char)
    ensures IsBoundary(c) <==> c as int in [0x0A, 0x0B, 0x0C, 0x0D, 0x1C, 0x1D, 0x1E, 0x85, 0x2028, 0x2029]
    ensures IsControl(c) <==> c as int < 32
  {}

  lemma LettersExactly(c: char)
    ensures IsLetter(c) <==> 65 <= c as int <= 90 || c as int == 95 || 97 <= c as int <= 122
    ensures IsUrlSafe(c) <==> IsLetter(c) || 48 <= c as int <= 57 || c as int == 45
  {}

  /** A key is a letter or underscore, then letters, underscores and digits. */
  lemma KeyExactly(first: char, rest: string)
    ensures IsKey([first] + rest) <==> IsLetter(first) && forall c :: c in rest ==> IsLetter(c) || 48 <= c as int <= 57
  {
    assert forall c :: c in [first] + rest <==> c == first || c in rest;
  }

  function StripLeft(s: string): string {
    if s != "" && IsSpace(s[0]) then StripLeft(s[1..]) else s
  }

  function StripRight(s: string): string {
    if s != "" && IsSpace(s[|s| - 1]) then StripRight(s[..|s| - 1]) else s
  }

  function Strip(s: string): string {
    StripRight(StripLeft(s))
  }

  predicate Blank(s: string) {
    forall c | c in s :: IsSpace(c)
  }

  /** Splits at each `\r\n`, `\r` or `\n`, and at nothing else. */
  function Lines(text: string): (lines: seq<string>)
    ensures lines != []
  {
    if text == "" then [""]
    else if text[0] == '\r' && |text| > 1 && text[1] == '\n' then [""] + Lines(text[2..])
    else if text[0] == '\r' || text[0] == '\n' then [""] + Lines(text[1..])
    else
      var rest := Lines(text[1..]);
      [[text[0]] + rest[0]] + rest[1..]
  }

  predicate OneLine(s: string) {
    '\r' !in s && '\n' !in s
  }

  function Join(lines: seq<string>, separator: string): string
    requires lines != []
  {
    if |lines| == 1 then lines[0] else lines[0] + separator + Join(lines[1..], separator)
  }

  lemma SeparatorSplits(separator: string, rest: string)
    requires separator in ["\n", "\r", "\r\n"]
    requires separator == "\r" ==> rest == "" || rest[0] != '\n'
    ensures Lines(separator + rest) == [""] + Lines(rest)
  {
    assert (separator + rest)[|separator|..] == rest;
  }

  lemma {:induction false} LinesAlone(line: string)
    requires OneLine(line)
    ensures Lines(line) == [line]
  {
    if line != "" {
      LinesAlone(line[1..]);
      assert [line[0]] + line[1..] == line;
    }
  }

  lemma {:induction false} LinesFirst(line: string, separator: string, rest: string)
    requires OneLine(line) && separator in ["\n", "\r", "\r\n"]
    requires separator == "\r" ==> rest == "" || rest[0] != '\n'
    ensures Lines(line + separator + rest) == [line] + Lines(rest)
  {
    var text := line + separator + rest;
    if line == "" {
      assert text == separator + rest;
      SeparatorSplits(separator, rest);
    } else {
      LinesFirst(line[1..], separator, rest);
      assert text[1..] == line[1..] + separator + rest;
      assert [line[0]] + line[1..] == line;
    }
  }

  /** Splitting inverts joining under each newline form. */
  lemma {:induction false} SplitInvertsJoin(lines: seq<string>, separator: string)
    requires lines != [] && separator in ["\n", "\r", "\r\n"]
    requires forall line | line in lines :: OneLine(line)
    ensures Lines(Join(lines, separator)) == lines
  {
    if |lines| == 1 {
      LinesAlone(lines[0]);
    } else {
      var rest := Join(lines[1..], separator);
      SplitInvertsJoin(lines[1..], separator);
      assert lines[1] in lines;
      LinesFirst(lines[0], separator, rest);
    }
  }

  // --- one line ---------------------------------------------------------------

  datatype Problem =
    | NoEquals | BadKey | ExcludedKey | UnlistedKey | LeadingBlank | MismatchedQuotes | EmptyValue
    | ControlCharacter | Duplicate(first: nat)

  datatype Line = Skip | Entry(key: string, value: string) | Refused(problem: Problem)

  /** The keys the file may and may not set. */
  datatype Policy = Policy(allowed: set<string>, excluded: set<string>)

  /** The text before the first `=`; the whole text if there is none. */
  function BeforeEquals(s: string): (key: string)
    ensures key <= s && '=' !in key
    ensures key == s || s[|key|] == '='
  {
    if s == "" || s[0] == '=' then "" else [s[0]] + BeforeEquals(s[1..])
  }

  function StripOneQuoteLayer(value: string): Option<string> {
    if value == "" || (value[0] != '"' && value[0] != '\'') then Some(value)
    else if |value| >= 2 && value[|value| - 1] == value[0] then Some(value[1..|value| - 1])
    else None
  }

  function ReadValue(key: string, value: string): Line {
    if value != "" && (value[0] == ' ' || value[0] == '\t') then Refused(LeadingBlank)
    else match StripOneQuoteLayer(value)
      case None => Refused(MismatchedQuotes)
      case Some(v) =>
        if Strip(v) == "" then Refused(EmptyValue)
        else if exists c | c in v :: IsControl(c) then Refused(ControlCharacter)
        else Entry(key, v)
  }

  /** Every check on one line, in order, but the one for duplicates. */
  function ReadLine(raw: string, policy: Policy): Line {
    var line := Strip(raw);
    if line == "" || line[0] == '#' then Skip
    else
      var key := BeforeEquals(line);
      if key == line then Refused(NoEquals)
      else if !IsKey(key) then Refused(BadKey)
      else if key in policy.excluded then Refused(ExcludedKey)
      else if key !in policy.allowed then Refused(UnlistedKey)
      else ReadValue(key, line[|key| + 1..])
  }

  /** A value the file format can carry between double quotes. */
  predicate Usable(key: string, value: string, policy: Policy) {
    && IsKey(key) && key in policy.allowed && key !in policy.excluded
    && !Blank(value) && forall c | c in value :: !IsControl(c)
  }

  lemma {:induction false} StripRightBlank(s: string)
    ensures StripRight(s) <= s && |StripRight(s)| <= |s|
    ensures StripRight(s) == "" <==> Blank(s)
  {
    if s != "" && IsSpace(s[|s| - 1]) {
      StripRightBlank(s[..|s| - 1]);
      assert s == s[..|s| - 1] + [s[|s| - 1]];
    } else if s != "" {
      assert s[|s| - 1] in s;
    }
  }

  lemma {:induction false} StripBlank(s: string)
    ensures Strip(s) == "" <==> Blank(s)
  {
    if s != "" && IsSpace(s[0]) {
      StripBlank(s[1..]);
      assert s == [s[0]] + s[1..];
    } else {
      StripRightBlank(s);
    }
  }

  /** Whatever a line yields can be carried. */
  lemma LineYieldsUsable(raw: string, policy: Policy)
    requires ReadLine(raw, policy).Entry?
    ensures Usable(ReadLine(raw, policy).key, ReadLine(raw, policy).value, policy)
  {
    var line := Strip(raw);
    var key := BeforeEquals(line);
    StripBlank(StripOneQuoteLayer(line[|key| + 1..]).value);
  }

  /** What is left between the blanks at both ends. */
  lemma {:induction false} StripTrims(s: string) returns (left: string, right: string)
    ensures s == left + Strip(s) + right && Blank(left) && Blank(right)
    ensures Strip(s) != "" ==> !IsSpace(Strip(s)[0]) && !IsSpace(Strip(s)[|Strip(s)| - 1])
  {
    if s != "" && IsSpace(s[0]) {
      left, right := StripTrims(s[1..]);
      left := [s[0]] + left;
    } else {
      left := "";
      right := StripRightTrims(s);
    }
  }

  lemma {:induction false} StripRightTrims(s: string) returns (right: string)
    ensures s == StripRight(s) + right && Blank(right)
    ensures StripRight(s) != "" ==> !IsSpace(StripRight(s)[|StripRight(s)| - 1])
  {
    if s != "" && IsSpace(s[|s| - 1]) {
      right := StripRightTrims(s[..|s| - 1]);
      right := right + [s[|s| - 1]];
    } else {
      right := "";
    }
  }

  /** A line whose trimmed text is `key=value`, cut at its first equals sign. */
  predicate Assigns(raw: string, key: string, value: string) {
    Strip(raw) == key + "=" + value && '=' !in key && (key == "" || key[0] != '#')
  }

  predicate Admitted(key: string, policy: Policy) {
    IsKey(key) && key !in policy.excluded && key in policy.allowed
  }

  predicate StartsBlank(value: string) {
    value != "" && value[0] in [' ', '\t']
  }

  /** A quote opens the value and does not close it. */
  predicate Unbalanced(value: string) {
    value != "" && value[0] in ['"', '\''] && (|value| == 1 || value[|value| - 1] != value[0])
  }

  /** The value without its one layer of quotes. */
  predicate Quotes(value: string, v: string) {
    if value != "" && value[0] in ['"', '\''] then value == [value[0]] + v + [value[0]] else v == value
  }

  predicate IsComment(line: string) {
    line != "" && line[0] == '#'
  }

  /** What a line that is passed over looks like, and one that has no equals sign. */
  lemma LinePassedExactly(raw: string, policy: Policy)
    ensures ReadLine(raw, policy) == Skip <==> Blank(raw) || IsComment(Strip(raw))
    ensures ReadLine(raw, policy) == Refused(NoEquals)
       <==> !Blank(raw) && !IsComment(Strip(raw)) && '=' !in Strip(raw)
  {
    StripBlank(raw);
    var line := Strip(raw);
    var key := BeforeEquals(line);
    assert key != line ==> line[|key|] in line;
  }

  lemma {:induction false} FirstEquals(key: string, value: string)
    requires '=' !in key
    ensures var line := key + "=" + value; BeforeEquals(line) == key != line && line[|key| + 1..] == value
  {
    if key != "" {
      FirstEquals(key[1..], value);
      assert (key + "=" + value)[1..] == key[1..] + "=" + value;
    }
  }

  lemma QuotesExactly(value: string)
    ensures StripOneQuoteLayer(value).None? <==> Unbalanced(value)
    ensures forall v :: StripOneQuoteLayer(value) == Some(v) <==> Quotes(value, v)
  {
    if value != "" && value[0] in ['"', '\''] && !Unbalanced(value) {
      assert value == [value[0]] + value[1..|value| - 1] + [value[0]];
    }
    forall v | Quotes(value, v) ensures StripOneQuoteLayer(value) == Some(v) {
      if value != "" && value[0] in ['"', '\''] {
        var all := [value[0]] + v + [value[0]];
        assert |all| == |v| + 2 && all[|all| - 1] == value[0] && all[1..|all| - 1] == v;
      }
    }
  }

  predicate HasControl(v: string) {
    exists c :: c in v && IsControl(c)
  }

  lemma ValueExactly(key: string, value: string)
    ensures var r := ReadValue(key, value);
      && (r == Refused(LeadingBlank) <==> StartsBlank(value))
      && (r == Refused(MismatchedQuotes) <==> !StartsBlank(value) && Unbalanced(value))
      && (r == Refused(EmptyValue) <==> !StartsBlank(value) && exists v :: Quotes(value, v) && Blank(v))
      && (r == Refused(ControlCharacter) <==>
            !StartsBlank(value) && exists v :: Quotes(value, v) && !Blank(v) && HasControl(v))
      && (forall k, v :: r == Entry(k, v) <==>
            k == key && !StartsBlank(value) && Quotes(value, v) && !Blank(v) && !HasControl(v))
      && r != Skip && !(r.Refused? && r.problem in [NoEquals, BadKey, ExcludedKey, UnlistedKey])
  {
    QuotesExactly(value);
    var stripped := StripOneQuoteLayer(value);
    if stripped.Some? { StripBlank(stripped.value); }
    hide StripOneQuoteLayer, Quotes, Strip, Unbalanced, Blank;
  }

  /** What an assignment yields: the refusals in their order, or the entry. */
  lemma AssignmentExactly(raw: string, key: string, value: string, policy: Policy)
    requires Assigns(raw, key, value)
    ensures var r := ReadLine(raw, policy);
      && (r == Refused(BadKey) <==> !IsKey(key))
      && (r == Refused(ExcludedKey) <==> IsKey(key) && key in policy.excluded)
      && (r == Refused(UnlistedKey) <==> IsKey(key) && key !in policy.excluded && key !in policy.allowed)
      && (r == Refused(LeadingBlank) <==> Admitted(key, policy) && StartsBlank(value))
      && (r == Refused(MismatchedQuotes) <==> Admitted(key, policy) && !StartsBlank(value) && Unbalanced(value))
      && (r == Refused(EmptyValue) <==>
            Admitted(key, policy) && !StartsBlank(value) && exists v :: Quotes(value, v) && Blank(v))
      && (r == Refused(ControlCharacter) <==>
            Admitted(key, policy) && !StartsBlank(value) && exists v :: Quotes(value, v) && !Blank(v) && HasControl(v))
      && (forall k, v :: r == Entry(k, v) <==>
            k == key && Admitted(key, policy) && !StartsBlank(value) && Quotes(value, v) && !Blank(v) && !HasControl(v))
  {
    FirstEquals(key, value);
    ValueExactly(key, value);
    var line := key + "=" + value;
    assert line[0] == if key == "" then '=' else key[0];
    hide IsKey, ReadValue, Quotes, Blank, HasControl, StartsBlank, Unbalanced, Strip, BeforeEquals;
  }

  // --- the file ---------------------------------------------------------------

  datatype Item = Item(lineno: nat, key: string, value: string)

  function Added(line: Line, lineno: nat): seq<Item> {
    if line.Entry? then [Item(lineno, line.key, line.value)] else []
  }

  function ItemsOf(lines: seq<string>, policy: Policy): seq<Item> {
    if lines == [] then []
    else
      var last := |lines| - 1;
      ItemsOf(lines[..last], policy) + Added(ReadLine(lines[last], policy), |lines|)
  }

  ghost predicate DistinctKeys(items: seq<Item>) {
    forall i, j :: 0 <= i < j < |items| ==> items[i].key != items[j].key
  }

  ghost predicate Clean(lines: seq<string>, policy: Policy) {
    (forall line | line in lines :: !ReadLine(line, policy).Refused?) && DistinctKeys(ItemsOf(lines, policy))
  }

  /** Items of a longer file extend those of a shorter one. */
  lemma {:induction false} ItemsOfPrefix(lines: seq<string>, n: nat, policy: Policy)
    requires n <= |lines|
    ensures ItemsOf(lines[..n], policy) <= ItemsOf(lines, policy)
    ensures n < |lines| ==>
              ItemsOf(lines[..n + 1], policy) == ItemsOf(lines[..n], policy) + Added(ReadLine(lines[n], policy), n + 1)
  {
    hide ReadLine;
    if n == |lines| {
      assert lines[..n] == lines;
    } else {
      var last := |lines| - 1;
      ItemsOfPrefix(lines[..last], n, policy);
      assert lines[..last][..n] == lines[..n] && lines[..n + 1][..n] == lines[..n];
    }
  }

  lemma CleanPrefix(lines: seq<string>, n: nat, policy: Policy)
    requires n <= |lines| && Clean(lines, policy)
    ensures Clean(lines[..n], policy)
  {
    hide ReadLine;
    ItemsOfPrefix(lines, n, policy);
  }

  datatype Parsed = Entries(items: seq<Item>) | Refusal(lineno: nat, problem: Problem)

  /** Why a clean file stops being clean at its next line. */
  ghost predicate FirstProblem(lines: seq<string>, lineno: nat, problem: Problem, policy: Policy) {
    && 1 <= lineno <= |lines| && Clean(lines[..lineno - 1], policy)
    && var line := ReadLine(lines[lineno - 1], policy);
       if line.Refused? then problem == line.problem
       else
         && line.Entry? && problem.Duplicate?
         && exists item :: item in ItemsOf(lines[..lineno - 1], policy)
                        && item.key == line.key && item.lineno == problem.first
  }

  lemma NothingIsClean(lines: seq<string>, policy: Policy)
    ensures ItemsOf(lines[..0], policy) == [] && Clean(lines[..0], policy)
  {
  }

  lemma CleanOneMore(lines: seq<string>, n: nat, policy: Policy)
    requires n < |lines| && Clean(lines[..n], policy)
    requires var line := ReadLine(lines[n], policy);
             && !line.Refused?
             && forall item | item in ItemsOf(lines[..n], policy) :: line.Entry? ==> item.key != line.key
    ensures Clean(lines[..n + 1], policy)
  {
    ItemsOfPrefix(lines, n, policy);
    var line := ReadLine(lines[n], policy);
    hide ReadLine, ItemsOf, DistinctKeys;
    forall l | l in lines[..n + 1] ensures l in lines[..n] || l == lines[n] {
      var k :| 0 <= k <= n && lines[k] == l;
      assert k < n ==> lines[..n][k] == l;
    }
    if line.Entry? {
      OneMoreKey(ItemsOf(lines[..n], policy), Item(n + 1, line.key, line.value));
    } else {
      assert ItemsOf(lines[..n + 1], policy) == ItemsOf(lines[..n], policy);
    }
  }

  lemma OneMoreKey(items: seq<Item>, item: Item)
    requires DistinctKeys(items) && forall other :: other in items ==> other.key != item.key
    ensures DistinctKeys(items + [item])
  {}

  /** A key that has come before makes the longer file unclean. */
  lemma RepeatIsUnclean(lines: seq<string>, n: nat, policy: Policy)
    requires n < |lines| && ReadLine(lines[n], policy).Entry?
    requires exists item :: item in ItemsOf(lines[..n], policy) && item.key == ReadLine(lines[n], policy).key
    ensures !DistinctKeys(ItemsOf(lines[..n + 1], policy))
  {
    var items := ItemsOf(lines[..n], policy);
    var k :| 0 <= k < |items| && items[k].key == ReadLine(lines[n], policy).key;
    ItemsOfPrefix(lines, n, policy);
    hide ReadLine;
    var longer := ItemsOf(lines[..n + 1], policy);
    assert longer[k].key == longer[|items|].key;
  }

  lemma ProblemIsUnclean(lines: seq<string>, lineno: nat, problem: Problem, policy: Policy)
    requires FirstProblem(lines, lineno, problem, policy)
    ensures !Clean(lines, policy)
  {
    hide ReadLine, ItemsOf, DistinctKeys;
    assert lines[lineno - 1] in lines;
    if !ReadLine(lines[lineno - 1], policy).Refused? {
      RepeatIsUnclean(lines, lineno - 1, policy);
      if Clean(lines, policy) {
        CleanPrefix(lines, lineno, policy);
      }
    }
  }

  /** The whole file or nothing: every entry in file order with its line number,
      exactly if no line is refused and no key comes twice; otherwise the first
      offending line, with its own problem or the line that had the key first. */
  method ParseEnvFile(text: string, policy: Policy) returns (r: Parsed)
    ensures r.Entries? <==> Clean(Lines(text), policy)
    ensures r.Entries? ==> r.items == ItemsOf(Lines(text), policy)
    ensures r.Refusal? ==> FirstProblem(Lines(text), r.lineno, r.problem, policy)
  {
    hide ReadLine, Lines, ItemsOf, Clean;
    var lines := Lines(text);
    var items: seq<Item>, firstLine: map<string, nat> := [], map[];
    NothingIsClean(lines, policy);
    for n := 0 to |lines|
      invariant items == ItemsOf(lines[..n], policy) && Clean(lines[..n], policy)
      invariant forall item | item in items :: item.key in firstLine && firstLine[item.key] == item.lineno
      invariant forall key | key in firstLine :: exists item :: item in items && item.key == key
    {
      ItemsOfPrefix(lines, n, policy);
      var line := ReadLine(lines[n], policy);
      match line
      case Skip =>
        CleanOneMore(lines, n, policy);
      case Refused(problem) =>
        ProblemIsUnclean(lines, n + 1, problem, policy);
        return Refusal(n + 1, problem);
      case Entry(key, value) =>
        if key in firstLine {
          ProblemIsUnclean(lines, n + 1, Duplicate(firstLine[key]), policy);
          return Refusal(n + 1, Duplicate(firstLine[key]));
        }
        CleanOneMore(lines, n, policy);
        firstLine := firstLine[key := n + 1];
        items := items + [Item(n + 1, key, value)];
        assert items[|items| - 1].key == key;
    }
    assert lines[..|lines|] == lines;
    return Entries(items);
  }

  // --- round trip -------------------------------------------------------------

  function Render(pairs: seq<(string, string)>): string {
    if pairs == [] then ""
    else pairs[0].0 + "=\"" + pairs[0].1 + "\"" + "\n" + Render(pairs[1..])
  }

  /** The pairs as entries of consecutive lines. */
  function Numbered(pairs: seq<(string, string)>): seq<Item> {
    seq(|pairs|, i requires 0 <= i < |pairs| => Item(i + 1, pairs[i].0, pairs[i].1))
  }

  ghost predicate AllUsable(pairs: seq<(string, string)>, policy: Policy) {
    && (forall i :: 0 <= i < |pairs| ==> Usable(pairs[i].0, pairs[i].1, policy))
    && forall i, j :: 0 <= i < j < |pairs| ==> pairs[i].0 != pairs[j].0
  }

  function Quoted(key: string, value: string): string {
    key + "=\"" + value + "\""
  }

  lemma {:induction false} BeforeEqualsOf(key: string, rest: string)
    requires '=' !in key
    ensures BeforeEquals(key + "=" + rest) == key
  {
    var s := key + "=" + rest;
    if key != "" {
      assert s[1..] == key[1..] + "=" + rest;
      BeforeEqualsOf(key[1..], rest);
    }
  }

  lemma {:induction false} StripRightOf(head: string, tail: string)
    requires head != "" && !IsSpace(head[|head| - 1])
    ensures StripRight(head + tail) == head + StripRight(tail)
  {
    if tail == "" || !IsSpace(tail[|tail| - 1]) {
      assert head + tail == head || (head + tail)[|head + tail| - 1] == tail[|tail| - 1];
    } else {
      assert (head + tail)[..|head + tail| - 1] == head + tail[..|tail| - 1];
      StripRightOf(head, tail[..|tail| - 1]);
    }
  }

  /** A line that starts with a settable key is split there; its value loses
      the white space at its end. */
  lemma KeyedLine(key: string, value: string, policy: Policy)
    requires IsKey(key) && key in policy.allowed && key !in policy.excluded
    ensures ReadLine(key + "=" + value, policy) == ReadValue(key, StripRight(value))
  {
    hide ReadValue, StripRight, BeforeEquals;
    var raw := key + "=" + value;
    assert raw[0] == key[0];
    StripRightOf(key + "=", value);
    var line := key + "=" + StripRight(value);
    assert Strip(raw) == line && line[0] == key[0];
    assert '=' !in key;
    BeforeEqualsOf(key, StripRight(value));
    assert line[|key|] == '=' && key != line;
    assert line[|key| + 1..] == StripRight(value);
  }

  lemma QuotedValue(key: string, value: string)
    requires !Blank(value) && forall c | c in value :: !IsControl(c)
    ensures ReadValue(key, "\"" + value + "\"") == Entry(key, value)
  {
    var quoted := "\"" + value + "\"";
    assert quoted[1..|quoted| - 1] == value;
    StripBlank(value);
  }

  /** A quoted line is read back exactly. */
  lemma QuotedLine(key: string, value: string, policy: Policy)
    requires Usable(key, value, policy)
    ensures ReadLine(Quoted(key, value), policy) == Entry(key, value)
    ensures OneLine(Quoted(key, value))
  {
    hide ReadLine, ReadValue;
    var quoted := "\"" + value + "\"";
    KeyedLine(key, quoted, policy);
    QuotedValue(key, value);
    assert Quoted(key, value) == key + "=" + quoted;
    forall c | c in Quoted(key, value)
      ensures c != '\r' && c != '\n'
    {
      assert c in key || c == '=' || c == '"' || c in value;
    }
  }

  /** The lines and entries of a rendered file. */
  lemma {:induction false} RenderedLines(pairs: seq<(string, string)>, policy: Policy)
    requires forall i :: 0 <= i < |pairs| ==> Usable(pairs[i].0, pairs[i].1, policy)
    ensures |Lines(Render(pairs))| == |pairs| + 1 && Lines(Render(pairs))[|pairs|] == ""
    ensures forall i :: 0 <= i < |pairs| ==> Lines(Render(pairs))[i] == Quoted(pairs[i].0, pairs[i].1)
  {
    hide Lines, ReadLine, Usable;
    if pairs == [] {
      LinesAlone("");
    } else {
      QuotedLine(pairs[0].0, pairs[0].1, policy);
      RenderedLines(pairs[1..], policy);
      LinesFirst(Quoted(pairs[0].0, pairs[0].1), "\n", Render(pairs[1..]));
    }
  }

  lemma {:induction false} RenderedItems(lines: seq<string>, pairs: seq<(string, string)>, policy: Policy)
    requires |lines| == |pairs|
    requires forall i :: 0 <= i < |pairs| ==> ReadLine(lines[i], policy) == Entry(pairs[i].0, pairs[i].1)
    ensures ItemsOf(lines, policy) == Numbered(pairs)
  {
    hide ReadLine;
    if lines != [] {
      var last := |lines| - 1;
      RenderedItems(lines[..last], pairs[..last], policy);
      assert Numbered(pairs) == Numbered(pairs[..last]) + [Item(|lines|, pairs[last].0, pairs[last].1)];
    }
  }

  lemma {:induction false} ItemsAreUsable(lines: seq<string>, policy: Policy)
    ensures forall item | item in ItemsOf(lines, policy) :: Usable(item.key, item.value, policy)
  {
    hide ReadLine, Usable;
    if lines != [] {
      var last := |lines| - 1;
      ItemsAreUsable(lines[..last], policy);
      if ReadLine(lines[last], policy).Entry? {
        LineYieldsUsable(lines[last], policy);
      }
    }
  }

  /** What the file reads as. */
  ghost function Reading(text: string, policy: Policy): Option<seq<Item>> {
    if Clean(Lines(text), policy) then Some(ItemsOf(Lines(text), policy)) else None
  }

  lemma EmptyLine(policy: Policy)
    ensures ReadLine("", policy) == Skip
  {
  }

  lemma UsableIsRead(pairs: seq<(string, string)>, policy: Policy)
    requires AllUsable(pairs, policy)
    ensures Reading(Render(pairs), policy) == Some(Numbered(pairs))
  {
    hide Lines, ReadLine, Usable, Render;
    var lines := Lines(Render(pairs));
    RenderedLines(pairs, policy);
    forall i | 0 <= i < |pairs|
      ensures ReadLine(lines[i], policy) == Entry(pairs[i].0, pairs[i].1)
    {
      QuotedLine(pairs[i].0, pairs[i].1, policy);
    }
    RenderedItems(lines[..|pairs|], pairs, policy);
    EmptyLine(policy);
    assert ItemsOf(lines, policy) == ItemsOf(lines[..|pairs|], policy) + Added(Skip, |lines|);
    assert ItemsOf(lines, policy) == Numbered(pairs);
    forall line | line in lines
      ensures !ReadLine(line, policy).Refused?
    {
      var i :| 0 <= i < |lines| && lines[i] == line;
      assert i < |pairs| || line == "";
    }
  }

  lemma ReadIsUsable(pairs: seq<(string, string)>, text: string, policy: Policy)
    requires Reading(text, policy) == Some(Numbered(pairs))
    ensures AllUsable(pairs, policy)
  {
    hide Lines, ReadLine, Usable;
    ItemsAreUsable(Lines(text), policy);
    forall i | 0 <= i < |pairs|
      ensures Usable(pairs[i].0, pairs[i].1, policy)
    {
      assert Numbered(pairs)[i] in Numbered(pairs);
    }
    forall i, j | 0 <= i < j < |pairs|
      ensures pairs[i].0 != pairs[j].0
    {
      assert Numbered(pairs)[i].key != Numbered(pairs)[j].key;
    }
  }

  /** The lines `KEY="value"` are read back as exactly the listed pairs, if and
      only if the keys are distinct and settable and the values are neither
      blank nor hold a control character. */
  lemma RoundTripExactly(pairs: seq<(string, string)>, policy: Policy)
    ensures Reading(Render(pairs), policy) == Some(Numbered(pairs)) <==> AllUsable(pairs, policy)
  {
    hide *;
    if AllUsable(pairs, policy) {
      UsableIsRead(pairs, policy);
    }
    if Reading(Render(pairs), policy) == Some(Numbered(pairs)) {
      ReadIsUsable(pairs, Render(pairs), policy);
    }
  }

  // --- the secret -------------------------------------------------------------

  const SECRET_ENV_KEY := "BENCHWEAVE_SECRET"

  /** The credential file setup writes. */
  function CredentialFile(secret: string): string {
    SECRET_ENV_KEY + "=" + secret + "\n"
  }

  /** Where `str.splitlines` breaks, which is more than where the loader does. */
  predicate IsBoundary(c: char) {
    var u := c as int;
    0x0A <= u <= 0x0D || 0x1C <= u <= 0x1E || u == 0x85 || u == 0x2028 || u == 0x2029
  }

  function SplitLines(text: string): (lines: seq<string>)
    ensures lines == [] <==> text == ""
  {
    if text == "" then []
    else if text[0] == '\r' && |text| > 1 && text[1] == '\n' then [""] + SplitLines(text[2..])
    else if IsBoundary(text[0]) then [""] + SplitLines(text[1..])
    else if |text| == 1 then [text]
    else
      var rest := SplitLines(text[1..]);
      [[text[0]] + rest[0]] + rest[1..]
  }

  /** The first line that sets the secret, verbatim; `None` is the refusal. */
  function FirstSecret(lines: seq<string>): Option<string> {
    if lines == [] then None
    else if SECRET_ENV_KEY + "=" <= lines[0] then Some(lines[0][|SECRET_ENV_KEY| + 1..])
    else FirstSecret(lines[1..])
  }

  function ReadSecret(text: string): Option<string> {
    FirstSecret(SplitLines(text))
  }

  /** Splitting breaks at each boundary, `\r\n` counting as one, and nowhere else. */
  lemma {:induction false} SplitLinesAt(line: string, separator: string, rest: string)
    requires forall c | c in line :: !IsBoundary(c)
    requires separator == "\r\n" || (|separator| == 1 && IsBoundary(separator[0]))
    requires separator == "\r" ==> rest == "" || rest[0] != '\n'
    ensures SplitLines(line + separator + rest) == [line] + SplitLines(rest)
  {
    var text := line + separator + rest;
    if line == "" {
      assert text == separator + rest && text[|separator|..] == rest;
    } else {
      SplitLinesAt(line[1..], separator, rest);
      assert text[1..] == line[1..] + separator + rest && text[0] == line[0];
      assert line[0] in line;
      assert SplitLines(text) == [[text[0]] + SplitLines(text[1..])[0]] + SplitLines(text[1..])[1..];
      hide SplitLines;
      assert [line[0]] + line[1..] == line;
    }
  }

  lemma {:induction false} SplitLinesAlone(line: string)
    requires line != "" && forall c | c in line :: !IsBoundary(c)
    ensures SplitLines(line) == [line]
  {
    assert line[0] in line;
    if |line| > 1 {
      SplitLinesAlone(line[1..]);
      assert [line[0]] + line[1..] == line;
    }
  }

  /** The first line that starts with the key and an equals sign gives its rest. */
  lemma {:induction false} FirstSecretExactly(lines: seq<string>, i: nat, value: string)
    requires i < |lines| && lines[i] == "BENCHWEAVE_SECRET=" + value
    requires forall k :: 0 <= k < i ==> !("BENCHWEAVE_SECRET=" <= lines[k])
    ensures FirstSecret(lines) == Some(value)
  {
    assert SECRET_ENV_KEY + "=" == "BENCHWEAVE_SECRET=";
    if i > 0 { FirstSecretExactly(lines[1..], i - 1, value); }
  }

  lemma {:induction false} NoSecretExactly(lines: seq<string>)
    ensures FirstSecret(lines) == None <==> forall k :: 0 <= k < |lines| ==> !("BENCHWEAVE_SECRET=" <= lines[k])
  {
    assert SECRET_ENV_KEY + "=" == "BENCHWEAVE_SECRET=";
    if lines != [] {
      NoSecretExactly(lines[1..]);
      assert forall k :: 1 <= k < |lines| ==> lines[k] == lines[1..][k - 1];
    }
  }

  /** The first line ends at the first boundary. */
  lemma {:induction false} FirstLineOf(line: string, text: string)
    requires line < text && IsBoundary(text[|line|])
    requires forall c | c in line :: !IsBoundary(c)
    ensures SplitLines(text)[0] == line
  {
    if line != "" {
      assert line[0] in line && text[0] == line[0];
      FirstLineOf(line[1..], text[1..]);
      assert [line[0]] + line[1..] == line;
    }
  }

  lemma {:induction false} UpToBoundary(s: string) returns (line: string)
    ensures line <= s && forall c | c in line :: !IsBoundary(c)
    ensures line == s || IsBoundary(s[|line|])
    ensures line == s <==> forall c | c in s :: !IsBoundary(c)
  {
    if s == "" || IsBoundary(s[0]) {
      line := "";
    } else {
      var rest := UpToBoundary(s[1..]);
      line := [s[0]] + rest;
      assert s == [s[0]] + s[1..];
    }
  }

  /** The command line's reader returns exactly what was written, if and only if
      that holds no line boundary. */
  lemma ReadSecretExactly(secret: string)
    ensures ReadSecret(CredentialFile(secret)) == Some(secret) <==> forall c | c in secret :: !IsBoundary(c)
  {
    hide SplitLines;
    var kept := UpToBoundary(secret);
    var prefix := SECRET_ENV_KEY + "=";
    var text := CredentialFile(secret);
    var line := prefix + kept;
    assert text == prefix + (secret + "\n");
    assert text[|line|] == (secret + "\n")[|kept|];
    assert line < text;
    forall c | c in line
      ensures !IsBoundary(c)
    {
      assert c in prefix || c in kept;
    }
    FirstLineOf(line, text);
    assert SplitLines(text)[0][|SECRET_ENV_KEY| + 1..] == kept;
  }

  /** A value the loader takes as it stands, without quotes. */
  predicate Plain(value: string) {
    && value != "" && value[0] != ' ' && value[0] != '"' && value[0] != '\''
    && !IsSpace(value[|value| - 1])
    && forall c | c in value :: !IsControl(c)
  }

  lemma PlainIsRead(value: string)
    requires Plain(value)
    ensures ReadValue(SECRET_ENV_KEY, StripRight(value)) == Entry(SECRET_ENV_KEY, value)
  {
    assert StripRight(value) == value;
    assert value[|value| - 1] in value && value[0] in value;
    assert StripOneQuoteLayer(value) == Some(value);
    StripBlank(value);
  }

  lemma ReadIsPlain(value: string)
    requires ReadValue(SECRET_ENV_KEY, StripRight(value)) == Entry(SECRET_ENV_KEY, value)
    ensures Plain(value)
  {
    StripRightBlank(value);
    if value != "" && IsSpace(value[|value| - 1]) {
      StripRightBlank(value[..|value| - 1]);
    }
    assert |StripOneQuoteLayer(StripRight(value)).value| == |value|;
    StripBlank(value);
  }

  /** The credential file has one entry at most, and it comes from line 1. */
  lemma CredentialLines(secret: string, policy: Policy)
    requires OneLine(secret)
    ensures Lines(CredentialFile(secret)) == [SECRET_ENV_KEY + "=" + secret, ""]
    ensures ItemsOf(Lines(CredentialFile(secret)), policy) == Added(ReadLine(SECRET_ENV_KEY + "=" + secret, policy), 1)
  {
    hide ReadLine, Lines;
    var line := SECRET_ENV_KEY + "=" + secret;
    forall c | c in line
      ensures c != '\r' && c != '\n'
    {
      assert c in SECRET_ENV_KEY + "=" || c in secret;
    }
    LinesFirst(line, "\n", "");
    LinesAlone("");
    assert CredentialFile(secret) == line + "\n" + "";
    EmptyLine(policy);
    assert [line, ""][..1] == [line] && [line][..0] == [];
    assert ItemsOf([line], policy) == ItemsOf([], policy) + Added(ReadLine(line, policy), 1);
  }

  /** The serve loader returns exactly the secret that was written, if and only
      if that is plain. */
  lemma LoaderReadsSecretExactly(secret: string, policy: Policy)
    requires SECRET_ENV_KEY in policy.allowed && SECRET_ENV_KEY !in policy.excluded
    ensures Reading(CredentialFile(secret), policy) == Some([Item(1, SECRET_ENV_KEY, secret)]) <==> Plain(secret)
  {
    hide ReadLine, ReadValue, StripRight, Lines, ItemsOf;
    var item := Item(1, SECRET_ENV_KEY, secret);
    var lines := Lines(CredentialFile(secret));
    KeyedLine(SECRET_ENV_KEY, secret, policy);
    EmptyLine(policy);
    if Plain(secret) {
      CredentialLines(secret, policy);
      PlainIsRead(secret);
    } else if Reading(CredentialFile(secret), policy) == Some([item]) {
      ItemsAreUsable(lines, policy);
      assert item in [item];
      CredentialLines(secret, policy);
      assert Added(ReadLine(lines[0], policy), 1) == [item];
      ReadIsPlain(secret);
    }
  }

  predicate IsUrlSafe(c: char) {
    IsLetter(c) || '0' <= c <= '9' || c == '-'
  }

  /** Both readers return every token setup can generate. */
  lemma GeneratedSecretIsReadAlike(token: string, policy: Policy)
    requires token != "" && forall c | c in token :: IsUrlSafe(c)
    requires SECRET_ENV_KEY in policy.allowed && SECRET_ENV_KEY !in policy.excluded
    ensures ReadSecret(CredentialFile(token)) == Some(token)
    ensures Reading(CredentialFile(token), policy) == Some([Item(1, SECRET_ENV_KEY, token)])
  {
    hide ReadSecret, Reading;
    assert token[0] in token && token[|token| - 1] in token;
    ReadSecretExactly(token);
    LoaderReadsSecretExactly(token, policy);
  }

  /** A secret an operator has put between quotes is read differently: the
      loader drops the quotes, the command line keeps them. */
  lemma QuotedSecretIsReadDifferently(value: string, policy: Policy)
    requires Usable(SECRET_ENV_KEY, value, policy) && forall c | c in value :: !IsBoundary(c)
    ensures Reading(CredentialFile("\"" + value + "\""), policy) == Some([Item(1, SECRET_ENV_KEY, value)])
    ensures ReadSecret(CredentialFile("\"" + value + "\"")) == Some("\"" + value + "\"")
  {
    hide ReadSecret, Reading, Usable;
    var quoted := "\"" + value + "\"";
    var pairs := [(SECRET_ENV_KEY, value)];
    assert pairs[1..] == [];
    assert Render(pairs) == CredentialFile(quoted);
    assert Numbered(pairs) == [Item(1, SECRET_ENV_KEY, value)];
    UsableIsRead(pairs, policy);
    forall c | c in quoted
      ensures !IsBoundary(c)
    {
      assert c == '"' || c in value;
    }
    ReadSecretExactly(quoted);
  }

  // --- applying ---------------------------------------------------------------

  /** The environment after applying: a key already set is left alone, so of
      repeated keys the first one counts. */
  function Applied(items: seq<Item>, vars: map<string, string>): map<string, string> {
    if items == [] then vars
    else
      var before, last := Applied(items[..|items| - 1], vars), items[|items| - 1];
      if last.key in before then before else before[last.key := last.value]
  }

  /** The keys that were not set, in the order in which they get set. */
  function NewNames(items: seq<Item>, vars: map<string, string>): seq<string> {
    if items == [] then []
    else
      var before, last := items[..|items| - 1], items[|items| - 1];
      NewNames(before, vars) + if last.key in Applied(before, vars) then [] else [last.key]
  }

  /** The first entry of a key. */
  ghost predicate FirstEntry(items: seq<Item>, i: nat, key: string) {
    i < |items| && items[i].key == key && forall k :: 0 <= k < i ==> items[k].key != key
  }

  /** Keys already set keep their values; any other key ends up set exactly if it
      is listed, to the value of its first entry. */
  lemma {:induction false} AppliedExactly(items: seq<Item>, vars: map<string, string>, key: string)
    ensures key in vars ==> key in Applied(items, vars) && Applied(items, vars)[key] == vars[key]
    ensures key !in vars ==> (key in Applied(items, vars) <==> exists i: nat :: FirstEntry(items, i, key))
    ensures forall i: nat :: key !in vars && FirstEntry(items, i, key) ==> Applied(items, vars)[key] == items[i].value
    decreases |items|
  {
    if items != [] {
      var n := |items| - 1;
      var init := items[..n];
      AppliedExactly(init, vars, key);
      assert forall i: nat :: FirstEntry(init, i, key) ==> FirstEntry(items, i, key);
      assert forall i: nat :: FirstEntry(items, i, key) && i < n ==> FirstEntry(init, i, key);
      if key !in vars && key !in Applied(init, vars) {
        NoFirstNoEntry(init, key);
        assert items[n].key == key ==> FirstEntry(items, n, key);
      }
    }
  }

  lemma {:induction false} NoFirstNoEntry(items: seq<Item>, key: string)
    requires forall i: nat :: !FirstEntry(items, i, key)
    ensures forall k :: 0 <= k < |items| ==> items[k].key != key
    decreases |items|
  {
    if items != [] {
      var n := |items| - 1;
      assert forall i: nat :: FirstEntry(items[..n], i, key) ==> FirstEntry(items, i, key);
      NoFirstNoEntry(items[..n], key);
      assert forall k :: 0 <= k < n ==> items[..n][k] == items[k];
      assert items[n].key == key ==> FirstEntry(items, n, key);
    }
  }

  lemma {:induction false} NothingToApply(items: seq<Item>, vars: map<string, string>)
    requires forall item | item in items :: item.key in vars
    ensures Applied(items, vars) == vars && NewNames(items, vars) == []
    decreases |items|
  {
    if items != [] {
      NothingToApply(items[..|items| - 1], vars);
    }
  }

  lemma {:induction false} ListedAreSet(items: seq<Item>, vars: map<string, string>)
    ensures forall item | item in items :: item.key in Applied(items, vars)
    decreases |items|
  {
    if items != [] {
      var n := |items| - 1;
      ListedAreSet(items[..n], vars);
      assert items == items[..n] + [items[n]];
    }
  }

  /** Applying the same entries again changes nothing. */
  lemma ApplyingIsIdempotent(items: seq<Item>, vars: map<string, string>)
    ensures Applied(items, Applied(items, vars)) == Applied(items, vars)
    ensures NewNames(items, Applied(items, vars)) == []
  {
    ListedAreSet(items, vars);
    NothingToApply(items, Applied(items, vars));
  }

  /** The process environment. */
  class Environment {
    var vars: map<string, string>

    /** Sets each key that is not set yet, and returns the names set. */
    method Apply(items: seq<Item>) returns (applied: seq<string>)
      modifies this
      ensures vars == Applied(items, old(vars)) && applied == NewNames(items, old(vars))
    {
      applied := [];
      for n := 0 to |items|
        invariant vars == Applied(items[..n], old(vars)) && applied == NewNames(items[..n], old(vars))
      {
        assert items[..n + 1][..n] == items[..n];
        if items[n].key !in vars {
          vars := vars[items[n].key := items[n].value];
          applied := applied + [items[n].key];
        }
      }
      assert items[..|items|] == items;
    }

    /** Reads the whole file before touching the environment: a refused file
        leaves no residue, and a read one sets only what the policy allows. */
    method Load(text: string, policy: Policy) returns (r: Option<seq<string>>)
      modifies this
      ensures match Reading(text, policy)
              case None => r == None && vars == old(vars)
              case Some(items) => r == Some(NewNames(items, old(vars))) && vars == Applied(items, old(vars))
      ensures forall key | key in vars && key !in old(vars) :: key in policy.allowed && key !in policy.excluded
    {
      hide Lines, ItemsOf;
      var parsed := ParseEnvFile(text, policy);
      if parsed.Refusal? {
        return None;
      }
      ItemsAreUsable(Lines(text), policy);
      forall key | key in Applied(parsed.items, vars) && key !in vars
        ensures key in policy.allowed && key !in policy.excluded
      {
        AppliedExactly(parsed.items, vars, key);
        var i: nat :| FirstEntry(parsed.items, i, key);
        assert parsed.items[i] in parsed.items;
      }
      var applied := Apply(parsed.items);
      return Some(applied);
    }
  }

  /** Applying twice is applying once. */
  method ApplyTwice(env: Environment, items: seq<Item>) returns (applied: seq<string>, again: seq<string>)
    modifies env
    ensures env.vars == Applied(items, old(env.vars))
    ensures applied == NewNames(items, old(env.vars)) && again == []
  {
    applied := env.Apply(items);
    ApplyingIsIdempotent(items, old(env.vars));
    again := env.Apply(items);
  }
}
