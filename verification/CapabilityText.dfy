/** The text form of capabilities: `<scope>:<actions>`, and comma-separated lists of them. */
module CapabilityText {
  import opened Text
  import opened StoragePaths
  import opened Pruning
  import opened Capabilities
  import opened CapabilityLaws

  datatype CapabilityError =
    | InvalidScope(source: PathError)
    | InvalidScopeDelimiter(delimiter: char)
    | InvalidFormat
    | MissingActions
    | InvalidAction(character: char)

  datatype ListError = ListError(position: nat, entry: string, source: CapabilityError)

  function Letter(action: Action): char {
    match action
    case Read => 'r'
    case Write => 'w'
    case EncryptionKeys => 'e'
    case Unknown(character) => character
  }

  function ActionFor(letter: char): Option<Action> {
    if letter == 'r' then Some(Read)
    else if letter == 'w' then Some(Write)
    else if letter == 'e' then Some(EncryptionKeys)
    else None
  }

  // ---- Printing

  function Letters(actions: seq<Action>): string {
    if actions == [] then "" else [Letter(actions[0])] + Letters(actions[1..])
  }

  function Printed(cap: Capability): string {
    cap.scope + [':'] + Letters(cap.actions)
  }

  function PrintedEach(caps: seq<Capability>): (r: seq<string>)
    ensures |r| == |caps| && forall i | 0 <= i < |caps| :: r[i] == Printed(caps[i])
  {
    seq(|caps|, i requires 0 <= i < |caps| => Printed(caps[i]))
  }

  function PrintedList(caps: seq<Capability>): string {
    Join(PrintedEach(caps), ',')
  }

  // ---- Parsing

  function SplitOnce(s: string, sep: char): (r: Option<(string, string)>)
    ensures r.None? ==> sep !in s
    ensures r.Some? ==> s == r.value.0 + [sep] + r.value.1 && sep !in r.value.0
  {
    if s == "" then None
    else if s[0] == sep then Some(("", s[1..]))
    else
      match SplitOnce(s[1..], sep)
      case None => None
      case Some((a, b)) => assert s == [s[0]] + s[1..]; Some(([s[0]] + a, b))
  }

  /** The first letter that names no action. */
  function FirstInvalid(text: string): (r: Option<char>)
    ensures r.None? <==> forall i | 0 <= i < |text| :: ActionFor(text[i]).Some?
  {
    if text == "" then None
    else if ActionFor(text[0]).None? then Some(text[0])
    else FirstInvalid(text[1..])
  }

  function ActionsOf(text: string): (actions: seq<Action>)
    requires FirstInvalid(text).None?
    ensures |actions| == |text| && forall i | 0 <= i < |text| :: ActionFor(text[i]) == Some(actions[i])
  {
    seq(|text|, i requires 0 <= i < |text| => ActionFor(text[i]).value)
  }

  function ParsedScope(scope: string): Result<string, CapabilityError> {
    if ':' in scope then Err(InvalidScopeDelimiter(':'))
    else if ',' in scope then Err(InvalidScopeDelimiter(','))
    else
      match StrictFault(scope)
      case Some(fault) => Err(InvalidScope(fault))
      case None => Ok(scope)
  }

  function Parsed(value: string): Result<Capability, CapabilityError> {
    match SplitOnce(value, ':')
    case None => Err(InvalidFormat)
    case Some((scope, text)) =>
      if ':' in text then Err(InvalidFormat)
      else if text == "" then Err(MissingActions)
      else
        match FirstInvalid(text)
        case Some(letter) => Err(InvalidAction(letter))
        case None =>
          match ParsedScope(scope)
          case Err(error) => Err(error)
          case Ok(path) => Ok(Capability(path, Collect(ActionsOf(text))))
  }

  /** What `binary_search` answers on a sorted list. */
  datatype Found = At(index: nat) | Missing(index: nat)

  function Search(actions: seq<Action>, action: Action): (r: Found)
    ensures r.index <= |actions|
  {
    if actions == [] || Rank(action) < Rank(actions[0]) then Missing(0)
    else if action == actions[0] then At(0)
    else
      match Search(actions[1..], action)
      case At(i) => At(i + 1)
      case Missing(i) => Missing(i + 1)
  }

  /** The contract of `binary_search` on a sorted list. */
  lemma {:induction false} SearchLocates(actions: seq<Action>, action: Action)
    requires IsSorted(actions)
    ensures var found := Search(actions, action);
            if found.At? then found.index < |actions| && actions[found.index] == action
            else
              && (forall i | 0 <= i < found.index :: Rank(actions[i]) < Rank(action))
              && (forall i | found.index <= i < |actions| :: Rank(action) < Rank(actions[i]))
  {
    if !(actions == [] || Rank(action) < Rank(actions[0])) && action != actions[0] {
      SearchLocates(actions[1..], action);
    }
  }

  lemma InsertInTail<T>(s: seq<T>, x: T, i: nat)
    requires 0 < i <= |s|
    ensures [s[0]] + (s[1..][..i - 1] + [x] + s[1..][i - 1..]) == s[..i] + [x] + s[i..]
  {
  }

  lemma InsertAtFront<T>(s: seq<T>, x: T)
    ensures s[..0] + [x] + s[0..] == [x] + s
  {
  }

  /** Inserting where the search points keeps the list sorted and duplicate-free. */
  lemma {:induction false} InsertAtSearch(actions: seq<Action>, action: Action)
    ensures var found := Search(actions, action);
            Insert(actions, action) ==
            if found.At? then actions else actions[..found.index] + [action] + actions[found.index..]
  {
    if actions == [] || Rank(action) < Rank(actions[0]) {
      InsertAtFront(actions, action);
    } else if action != actions[0] {
      var rest := actions[1..];
      InsertAtSearch(rest, action);
      if Search(rest, action).At? {
        assert actions == [actions[0]] + rest;
      } else {
        InsertInTail(actions, action, Search(rest, action).index + 1);
      }
    }
  }

  /** The letter at the first position that names no action. */
  ghost predicate IsFirstInvalid(text: string, i: int) {
    && 0 <= i < |text| && ActionFor(text[i]).None?
    && forall j | 0 <= j < i :: ActionFor(text[j]).Some?
  }

  lemma {:induction false} FirstInvalidAt(text: string) returns (i: int)
    requires FirstInvalid(text).Some?
    ensures IsFirstInvalid(text, i) && FirstInvalid(text) == Some(text[i])
  {
    if ActionFor(text[0]).None? {
      i := 0;
    } else {
      i := FirstInvalidAt(text[1..]);
      i := i + 1;
      assert forall j | 0 < j < |text| :: text[j] == text[1..][j - 1];
    }
  }

  lemma FirstInvalidIff(text: string, letter: char)
    ensures FirstInvalid(text) == Some(letter) <==> exists i :: IsFirstInvalid(text, i) && text[i] == letter
  {
    if FirstInvalid(text).Some? {
      var i := FirstInvalidAt(text);
      assert forall j | IsFirstInvalid(text, j) :: j == i;
    }
  }

  lemma FirstInvalidFrom(text: string, i: nat)
    requires i < |text| && FirstInvalid(text[..i]).None? && ActionFor(text[i]).None?
    ensures FirstInvalid(text) == Some(text[i])
  {
    if i > 0 {
      assert text[..i][1..] == text[1..][..i - 1];
      assert forall k | 0 <= k < i :: text[..i][k] == text[k];
      FirstInvalidFrom(text[1..], i - 1);
    }
  }

  lemma CollectNextLetter(text: string, i: nat)
    requires i < |text| && FirstInvalid(text[..i]).None? && ActionFor(text[i]).Some?
    ensures FirstInvalid(text[..i + 1]).None?
    ensures Collect(ActionsOf(text[..i + 1])) == Insert(Collect(ActionsOf(text[..i])), ActionFor(text[i]).value)
  {
    var more := text[..i + 1];
    forall k | 0 <= k < |more|
      ensures ActionFor(more[k]).Some?
    {
      assert k < i ==> more[k] == text[..i][k];
    }
    assert ActionsOf(more)[..i] == ActionsOf(text[..i]);
  }

  /** The insertion loop: whatever the order and repetition of the letters, the result is sorted and duplicate-free. */
  method ParseActions(text: string) returns (r: Result<seq<Action>, CapabilityError>)
    ensures r == match FirstInvalid(text)
                 case Some(letter) => Err(InvalidAction(letter))
                 case None => Ok(Collect(ActionsOf(text)))
  {
    var actions: seq<Action> := [];
    for i := 0 to |text|
      invariant FirstInvalid(text[..i]).None? && actions == Collect(ActionsOf(text[..i]))
    {
      var action := ActionFor(text[i]);
      if action.None? {
        FirstInvalidFrom(text, i);
        return Err(InvalidAction(text[i]));
      }
      CollectNextLetter(text, i);
      InsertAtSearch(actions, action.value);
      var found := Search(actions, action.value);
      if found.Missing? {
        actions := actions[..found.index] + [action.value] + actions[found.index..];
      }
    }
    assert text[..|text|] == text;
    return Ok(actions);
  }

  method ParseCapability(value: string) returns (r: Result<Capability, CapabilityError>)
    ensures r == Parsed(value)
  {
    var split := SplitOnce(value, ':');
    if split.None? {
      return Err(InvalidFormat);
    }
    var (scope, text) := split.value;
    if ':' in text {
      return Err(InvalidFormat);
    }
    if text == "" {
      return Err(MissingActions);
    }
    var parsed := ParseActions(text);
    if parsed.Err? {
      return Err(parsed.error);
    }
    match ParsedScope(scope) {
      case Err(error) => return Err(error);
      case Ok(path) => return Ok(Capability(path, parsed.value));
    }
  }

  lemma SeparatorMeansPieces(s: string, sep: char)
    requires sep in s
    ensures |Split(s, sep)| >= 2
  {
    JoinSplit(s, sep);
    assert Split(s, sep)[0] in Split(s, sep);
  }

  /** Splitting at the first separator, seen from splitting at all of them. */
  lemma SplitOnceIff(value: string, sep: char)
    ensures var once, parts := SplitOnce(value, sep), Split(value, sep);
            && (|parts| == 2 <==> once.Some? && sep !in once.value.1)
            && (|parts| == 2 ==> once == Some((parts[0], parts[1])))
  {
    var once := SplitOnce(value, sep);
    if once.None? {
      SplitWithoutSeparator(value, sep);
    } else {
      var (head, rest) := once.value;
      SplitConcat(head, sep, rest);
      SplitWithoutSeparator(head, sep);
      if sep in rest {
        SeparatorMeansPieces(rest, sep);
      } else {
        SplitWithoutSeparator(rest, sep);
      }
    }
  }

  /** Which error is reported: the number of colons, then the letters, then the scope. */
  lemma ParseErrorIff(value: string, letter: char, fault: PathError)
    ensures var r, parts := Parsed(value), Split(value, ':');
            && (r == Err(InvalidFormat) <==> |parts| != 2)
            && (r == Err(MissingActions) <==> |parts| == 2 && parts[1] == "")
            && (r == Err(InvalidAction(letter)) <==>
                |parts| == 2 && exists i :: IsFirstInvalid(parts[1], i) && parts[1][i] == letter)
            && (r == Err(InvalidScopeDelimiter(',')) <==>
                && |parts| == 2 && parts[1] != "" && ',' in parts[0]
                && forall i | 0 <= i < |parts[1]| :: ActionFor(parts[1][i]).Some?)
            && (r == Err(InvalidScope(fault)) <==>
                && |parts| == 2 && parts[1] != "" && ',' !in parts[0] && StrictFault(parts[0]) == Some(fault)
                && forall i | 0 <= i < |parts[1]| :: ActionFor(parts[1][i]).Some?)
  {
    SplitOnceIff(value, ':');
    var parts := Split(value, ':');
    if |parts| == 2 {
      FirstInvalidIff(parts[1], letter);
    }
  }

  /** The entries of a list, each read by `parse`, up to the first that fails. */
  function ParsedEach<T>(parse: string -> Result<T, CapabilityError>, entries: seq<string>, position: nat)
    : Result<seq<T>, ListError>
  {
    if entries == [] then Ok([])
    else
      match parse(entries[0])
      case Err(error) => Err(ListError(position, entries[0], error))
      case Ok(item) =>
        match ParsedEach(parse, entries[1..], position + 1)
        case Err(error) => Err(error)
        case Ok(items) => Ok([item] + items)
  }

  function ParsedList(value: string): Result<seq<Capability>, ListError> {
    if value == "" then Ok([]) else ParsedEach(Parsed, Split(value, ','), 1)
  }

  lemma {:induction false} EachErrorIsFirst<T>(parse: string -> Result<T, CapabilityError>, entries: seq<string>,
                                               position: nat) returns (k: nat)
    requires ParsedEach(parse, entries, position).Err?
    ensures k < |entries| && parse(entries[k]).Err? && forall i | 0 <= i < k :: parse(entries[i]).Ok?
    ensures ParsedEach(parse, entries, position).error == ListError(position + k, entries[k], parse(entries[k]).error)
  {
    if parse(entries[0]).Err? {
      k := 0;
    } else {
      var rest := entries[1..];
      k := EachErrorIsFirst(parse, rest, position + 1);
      assert rest[k] == entries[k + 1];
      k := k + 1;
      forall i | 0 <= i < k
        ensures parse(entries[i]).Ok?
      {
        assert i > 0 ==> entries[i] == rest[i - 1];
      }
    }
  }

  /** A rejected list names its first invalid entry, counting from one. */
  lemma ListErrorIsFirst(value: string) returns (k: nat)
    requires ParsedList(value).Err?
    ensures var entries := Split(value, ',');
            && k < |entries| && Parsed(entries[k]).Err? && (forall i | 0 <= i < k :: Parsed(entries[i]).Ok?)
            && ParsedList(value).error == ListError(k + 1, entries[k], Parsed(entries[k]).error)
  {
    k := EachErrorIsFirst(Parsed, Split(value, ','), 1);
  }

  lemma {:induction false} EachParses<T>(parse: string -> Result<T, CapabilityError>, entries: seq<string>,
                                         items: seq<T>, position: nat)
    requires |entries| == |items| && forall i | 0 <= i < |items| :: parse(entries[i]) == Ok(items[i])
    ensures ParsedEach(parse, entries, position) == Ok(items)
    decreases |items|
  {
    if items != [] {
      EachParses(parse, entries[1..], items[1..], position + 1);
      assert items == [items[0]] + items[1..];
    }
  }

  // ---- Round trips

  predicate IsKnown(action: Action) {
    !action.Unknown?
  }

  /** What parsing produces and printing expects. */
  predicate IsWellFormed(cap: Capability) {
    && IsCanonical(cap.scope) && ':' !in cap.scope && ',' !in cap.scope
    && cap.actions != [] && IsSorted(cap.actions)
    && forall i | 0 <= i < |cap.actions| :: IsKnown(cap.actions[i])
  }

  lemma {:induction false} LettersNameActions(actions: seq<Action>)
    requires forall i | 0 <= i < |actions| :: IsKnown(actions[i])
    ensures |Letters(actions)| == |actions|
    ensures forall i | 0 <= i < |actions| :: ActionFor(Letters(actions)[i]) == Some(actions[i])
  {
    if actions != [] {
      LettersNameActions(actions[1..]);
    }
  }

  lemma ActionsOfLetters(actions: seq<Action>)
    requires forall i | 0 <= i < |actions| :: IsKnown(actions[i])
    ensures FirstInvalid(Letters(actions)).None? && ActionsOf(Letters(actions)) == actions
    ensures ':' !in Letters(actions) && ',' !in Letters(actions)
  {
    LettersNameActions(actions);
    var text := Letters(actions);
    assert forall i | 0 <= i < |text| :: ActionFor(text[i]).Some? && text[i] != ':' && text[i] != ',';
  }

  lemma CollectSorted(actions: seq<Action>)
    requires IsSorted(actions)
    ensures Collect(actions) == actions
  {
    SortedUnique(Collect(actions), actions);
  }

  lemma {:induction false} SplitOnceAt(a: string, sep: char, b: string)
    requires sep !in a
    ensures SplitOnce(a + [sep] + b, sep) == Some((a, b))
  {
    var s := a + [sep] + b;
    if a == "" {
      assert s[1..] == b;
    } else {
      assert s[1..] == a[1..] + [sep] + b;
      SplitOnceAt(a[1..], sep, b);
      assert a == [a[0]] + a[1..];
    }
  }

  /** A text is accepted exactly when it is a well-formed scope, one colon, and letters for the same actions. */
  lemma ParsedIff(value: string, cap: Capability)
    ensures Parsed(value) == Ok(cap) <==>
            IsWellFormed(cap) && exists text :: Spells(value, cap, text)
  {
    if Parsed(value) == Ok(cap) {
      var (scope, text) := SplitOnce(value, ':').value;
      StrictFaultMeansNotCanonical(scope);
      CollectedActionsAreKnown(text);
      assert Spells(value, cap, text);
    }
    if IsWellFormed(cap) && exists text :: Spells(value, cap, text) {
      var text :| Spells(value, cap, text);
      SplitOnceAt(cap.scope, ':', text);
      StrictFaultMeansNotCanonical(cap.scope);
    }
  }

  /** The letters may come in any order and repeat; the result has each action once, in order. */
  ghost predicate Spells(value: string, cap: Capability, text: string) {
    && value == cap.scope + [':'] + text
    && text != "" && ':' !in text
    && FirstInvalid(text).None?
    && Collect(ActionsOf(text)) == cap.actions
  }

  lemma CollectedActionsAreKnown(text: string)
    requires text != "" && FirstInvalid(text).None?
    ensures var actions := Collect(ActionsOf(text));
            actions != [] && forall i | 0 <= i < |actions| :: IsKnown(actions[i])
  {
    var actions := Collect(ActionsOf(text));
    assert ActionsOf(text)[0] in actions;
    forall i | 0 <= i < |actions|
      ensures IsKnown(actions[i])
    {
      assert actions[i] in ActionsOf(text);
      var k :| 0 <= k < |text| && ActionsOf(text)[k] == actions[i];
    }
  }

  /** Printing, then parsing, gives the capability back. */
  lemma CapabilityRoundTrip(cap: Capability)
    requires IsWellFormed(cap)
    ensures Parsed(Printed(cap)) == Ok(cap)
  {
    ActionsOfLetters(cap.actions);
    CollectSorted(cap.actions);
    assert Letters(cap.actions) != "" by { LettersNameActions(cap.actions); }
    assert Spells(Printed(cap), cap, Letters(cap.actions));
    ParsedIff(Printed(cap), cap);
  }

  lemma PrintedHasNoComma(cap: Capability)
    requires IsWellFormed(cap)
    ensures ',' !in Printed(cap) && Printed(cap) != ""
  {
    ActionsOfLetters(cap.actions);
  }

  /** The same for every list, the empty one included. */
  lemma ListRoundTrip(caps: seq<Capability>)
    requires forall i | 0 <= i < |caps| :: IsWellFormed(caps[i])
    ensures ParsedList(PrintedList(caps)) == Ok(caps)
  {
    if caps != [] {
      forall i | 0 <= i < |caps|
        ensures ',' !in PrintedEach(caps)[i] && PrintedEach(caps)[i] != ""
      {
        PrintedHasNoComma(caps[i]);
      }
      SplitJoin(PrintedEach(caps), ',');
      forall i | 0 <= i < |caps|
        ensures Parsed(PrintedEach(caps)[i]) == Ok(caps[i])
      {
        CapabilityRoundTrip(caps[i]);
      }
      EachParses(Parsed, PrintedEach(caps), caps, 1);
      assert PrintedEach(caps)[0] != "";
    }
  }

  // ---- The letters

  lemma LetterMeansAction(text: string, letter: char, action: Action)
    requires FirstInvalid(text).None? && ActionFor(letter) == Some(action)
    requires forall c: char :: ActionFor(c) == Some(action) ==> c == letter
    ensures action in Collect(ActionsOf(text)) <==> letter in text
  {
    var actions := ActionsOf(text);
    if action in Collect(actions) {
      assert action in actions;
      var i :| 0 <= i < |actions| && actions[i] == action;
      assert ActionFor(text[i]) == Some(action);
    }
    if letter in text {
      var i :| 0 <= i < |text| && text[i] == letter;
      assert actions[i] == action;
      assert action in actions;
    }
  }

  /** `r` is read, `w` is write, `e` is encryption keys, and nothing else is granted. */
  lemma ParsedMeansLetters(value: string, cap: Capability)
    requires Parsed(value) == Ok(cap)
    ensures var parts := Split(value, ':');
            && |parts| == 2 && cap.scope == parts[0]
            && (Read in cap.actions <==> 'r' in parts[1])
            && (Write in cap.actions <==> 'w' in parts[1])
            && (EncryptionKeys in cap.actions <==> 'e' in parts[1])
            && (forall c | c in parts[1] :: c == 'r' || c == 'w' || c == 'e')
            && (forall a | a in cap.actions :: a == Read || a == Write || a == EncryptionKeys)
  {
    ParsedParts(value, cap);
    LettersMeanActions(Split(value, ':')[1]);
  }

  lemma ParsedParts(value: string, cap: Capability)
    requires Parsed(value) == Ok(cap)
    ensures var parts := Split(value, ':');
            && |parts| == 2 && cap.scope == parts[0]
            && FirstInvalid(parts[1]).None? && cap.actions == Collect(ActionsOf(parts[1]))
  {
    SplitOnceIff(value, ':');
  }

  lemma LettersMeanActions(text: string)
    requires FirstInvalid(text).None?
    ensures var actions := Collect(ActionsOf(text));
            && (Read in actions <==> 'r' in text)
            && (Write in actions <==> 'w' in text)
            && (EncryptionKeys in actions <==> 'e' in text)
            && (forall c | c in text :: c == 'r' || c == 'w' || c == 'e')
            && (forall a | a in actions :: a == Read || a == Write || a == EncryptionKeys)
  {
    LetterMeansAction(text, 'r', Read);
    LetterMeansAction(text, 'w', Write);
    LetterMeansAction(text, 'e', EncryptionKeys);
    forall c | c in text
      ensures c == 'r' || c == 'w' || c == 'e'
    {
      var i :| 0 <= i < |text| && text[i] == c;
      assert ActionFor(text[i]).Some?;
    }
    forall a | a in Collect(ActionsOf(text))
      ensures a == Read || a == Write || a == EncryptionKeys
    {
      var i :| 0 <= i < |text| && ActionsOf(text)[i] == a;
      assert ActionFor(text[i]) == Some(a);
    }
  }

  /** The known actions among some, in the order of the letters. */
  function InOrder(actions: seq<Action>): seq<Action> {
    (if Read in actions then [Read] else []) + (if Write in actions then [Write] else []) +
    (if EncryptionKeys in actions then [EncryptionKeys] else [])
  }

  lemma InOrderMembers(actions: seq<Action>, a: Action)
    ensures a in InOrder(actions) <==> a in actions && (a == Read || a == Write || a == EncryptionKeys)
  {
  }

  lemma InOrderIsSorted(actions: seq<Action>)
    ensures IsSorted(InOrder(actions))
  {
  }

  lemma SortedIsInOrder(actions: seq<Action>)
    requires IsSorted(actions) && forall i | 0 <= i < |actions| :: IsKnown(actions[i])
    ensures actions == InOrder(actions)
  {
    forall a
      ensures a in actions <==> a in InOrder(actions)
    {
      InOrderMembers(actions, a);
      if a in actions {
        var i :| 0 <= i < |actions| && actions[i] == a;
        assert IsKnown(actions[i]);
      }
    }
    InOrderIsSorted(actions);
    SortedUnique(actions, InOrder(actions));
  }

  lemma LettersOfInOrder(actions: seq<Action>)
    ensures Letters(InOrder(actions)) ==
            (if Read in actions then "r" else "") + (if Write in actions then "w" else "") +
            (if EncryptionKeys in actions then "e" else "")
  {
    assert Letters([]) == "";
    assert Letters([Read]) == "r" && Letters([Write]) == "w" && Letters([EncryptionKeys]) == "e";
    assert [Read, Write][1..] == [Write] && [Read, EncryptionKeys][1..] == [EncryptionKeys];
    assert [Write, EncryptionKeys][1..] == [EncryptionKeys];
    assert [Read, Write, EncryptionKeys][1..] == [Write, EncryptionKeys];
  }

  /** The printed text, letter by letter: the scope, a colon, then `r`, `w`, `e` as granted. */
  lemma PrintedIs(cap: Capability)
    requires IsWellFormed(cap)
    ensures Printed(cap) ==
            cap.scope + ":" + ((if Read in cap.actions then "r" else "") + (if Write in cap.actions then "w" else "") +
            (if EncryptionKeys in cap.actions then "e" else ""))
  {
    SortedIsInOrder(cap.actions);
    LettersOfInOrder(cap.actions);
  }

  // ---- Normalization keeps lists printable

  lemma MergedStaysWellFormed(caps: seq<Capability>, c: Capability)
    requires forall i | 0 <= i < |caps| :: IsWellFormed(caps[i])
    requires c in Merged(caps)
    ensures IsWellFormed(c)
  {
    MergedMembers(caps, c);
    var i :| 0 <= i < |caps| && caps[i].scope == c.scope;
    var a := caps[i].actions[0];
    ActionsAtMembers(caps, c.scope, a);
    assert a in c.actions;
    forall k | 0 <= k < |c.actions|
      ensures IsKnown(c.actions[k])
    {
      assert c.actions[k] in c.actions;
      ActionsAtMembers(caps, c.scope, c.actions[k]);
    }
  }

  /** Normalize, print, parse: the normalized list comes back, and it permits what the input did. */
  lemma NormalizedListRoundTrip(caps: seq<Capability>, path: string, action: Action)
    requires forall i | 0 <= i < |caps| :: IsWellFormed(caps[i])
    ensures ParsedList(PrintedList(Capabilities.Normalized(caps))) == Ok(Capabilities.Normalized(caps))
    ensures Permits(ParsedList(PrintedList(Capabilities.Normalized(caps))).value, path, action) <==>
            Permits(caps, path, action)
  {
    forall i | 0 <= i < |Capabilities.Normalized(caps)|
      ensures IsWellFormed(Capabilities.Normalized(caps)[i])
    {
      MaximalMembers(Dominates, Merged(caps), Merged(caps), Capabilities.Normalized(caps)[i]);
      MergedStaysWellFormed(caps, Capabilities.Normalized(caps)[i]);
    }
    ListRoundTrip(Capabilities.Normalized(caps));
    NormalizationPreservesPermits(caps, path, action);
  }
}
