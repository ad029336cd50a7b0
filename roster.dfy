/** Roster validation: validatePlayers with its sport position vocabulary, and
    the per-player field checks that team registration and team update run
    while inserting players. */
module Roster {
  import opened Text
  import opened Wrappers

  // 'main', 'substitute', or any other string the client sent (counted as neither)
  datatype PlayerKind = Main | Substitute | OtherKind(raw: string)

  /** One element of the roster a client submits. An empty `position` is the
      absent (falsy) position. */
  datatype PlayerInput = PlayerInput(name: string, jersey: string, age: Option<int>, position: string, kind: PlayerKind)

  const Football: string := "Football (11v11)"
  const Cricket: string := "Cricket (T20)"

  /** SPORT_POSITIONS, looked up by the sport's display name; no entry gives
      the empty vocabulary. */
  function SportPositions(sportName: string): seq<string>
  {
    if sportName == Football then ["Goalkeeper", "Defender", "Midfielder", "Forward"]
    else if sportName == Cricket then ["Batsman", "Bowler", "All-rounder", "Wicket-keeper"]
    else if sportName == "Basketball (5v5)" then ["Point Guard", "Shooting Guard", "Small Forward", "Power Forward", "Center"]
    else if sportName == "Volleyball (6v6)" then ["Setter", "Outside Hitter", "Middle Blocker", "Opposite", "Libero"]
    else if sportName == "Badminton (Singles)" then ["Singles Player"]
    else []
  }

  datatype RosterError =
    | MainCountMismatch(required: int, got: nat)     // 'Exactly N main players required, got M'
    | TooManySubstitutes(allowed: int, got: nat)     // 'Maximum N substitutes allowed, got M'
    | DuplicateJerseys(numbers: seq<string>)         // 'Duplicate jersey numbers: ...'
    | InvalidPosition(position: string, player: nat) // 'Invalid position "P" for player I' (I counts from 1)
    | GoalkeeperCount                                // 'Exactly 1 Goalkeeper required in main players'
    | WicketKeeperCount                              // 'Exactly 1 Wicket-keeper required in main players'

  /** The number of players of kind `k`. */
  function CountKind(ps: seq<PlayerInput>, k: PlayerKind): (n: nat)
    ensures n <= |ps|
    ensures n == 0 <==> forall i :: 0 <= i < |ps| ==> ps[i].kind != k
    ensures n == |ps| <==> forall i :: 0 <= i < |ps| ==> ps[i].kind == k
  {
    if ps == [] then 0 else CountKind(ps[..|ps| - 1], k) + (if ps[|ps| - 1].kind == k then 1 else 0)
  }

  /** The number of main players whose position is `position`. */
  function CountMainAt(ps: seq<PlayerInput>, position: string): (n: nat)
    ensures n <= CountKind(ps, Main)
    ensures n == 0 <==> forall i :: 0 <= i < |ps| ==> !(ps[i].kind == Main && ps[i].position == position)
  {
    if ps == [] then 0
    else CountMainAt(ps[..|ps| - 1], position)
         + (if ps[|ps| - 1].kind == Main && ps[|ps| - 1].position == position then 1 else 0)
  }

  /** The counts are filter lengths: counting a concatenation adds the
      counts of its parts, and a single player counts once or not at all. */
  lemma {:induction false} CountsAdd(a: seq<PlayerInput>, b: seq<PlayerInput>, k: PlayerKind, position: string)
    ensures CountKind(a + b, k) == CountKind(a, k) + CountKind(b, k)
    ensures CountMainAt(a + b, position) == CountMainAt(a, position) + CountMainAt(b, position)
    decreases |b|
  {
    if b == [] {
      assert a + b == a;
    } else {
      var b' := b[..|b| - 1];
      assert (a + b)[..|a + b| - 1] == a + b';
      assert (a + b)[|a + b| - 1] == b[|b| - 1];
      CountsAdd(a, b', k, position);
    }
  }

  /** A roster of one player counts that player's kind and position. */
  lemma CountSingle(p: PlayerInput, k: PlayerKind, position: string)
    ensures CountKind([p], k) == if p.kind == k then 1 else 0
    ensures CountMainAt([p], position) == if p.kind == Main && p.position == position then 1 else 0
  {
    assert [p][..0] == [];
  }

  /** Every player is a main player, a substitute or of another kind, so the
      three counts add up to the roster length. */
  lemma {:induction false} KindsAddUp(ps: seq<PlayerInput>)
    ensures CountKind(ps, Main) + CountKind(ps, Substitute) + CountOther(ps) == |ps|
  {
    if ps != [] {
      KindsAddUp(ps[..|ps| - 1]);
    }
  }

  /** The players whose kind is neither main nor substitute. */
  function CountOther(ps: seq<PlayerInput>): nat
  {
    if ps == [] then 0 else CountOther(ps[..|ps| - 1]) + (if ps[|ps| - 1].kind.OtherKind? then 1 else 0)
  }

  function Jerseys(ps: seq<PlayerInput>): (js: seq<string>)
    ensures |js| == |ps| && forall i :: 0 <= i < |ps| ==> js[i] == ps[i].jersey
  {
    if ps == [] then [] else Jerseys(ps[..|ps| - 1]) + [ps[|ps| - 1].jersey]
  }

  /** `Array.prototype.indexOf`: the first index holding `x`. */
  function IndexOf(s: seq<string>, x: string): (i: nat)
    requires x in s
    ensures i < |s| && s[i] == x && x !in s[..i]
  {
    if s[0] == x then 0 else 1 + IndexOf(s[1..], x)
  }

  /** `js.filter((item, index) => js.indexOf(item) !== index)` restricted to
      the indices from `k` on: every element that occurs earlier too. */
  function DuplicatesFrom(js: seq<string>, k: nat): (d: seq<string>)
    requires k <= |js|
    decreases |js| - k
    ensures forall x :: x in d <==> exists j :: k <= j < |js| && js[j] == x && x in js[..j]
  {
    if k == |js| then []
    else
      var rest := DuplicatesFrom(js, k + 1);
      if IndexOf(js, js[k]) != k then [js[k]] + rest else rest
  }

  /** `[...new Set(s)]`: the distinct elements of `s` in order of first
      occurrence. */
  function Dedup(s: seq<string>): (r: seq<string>)
    ensures forall x :: x in r <==> x in s
    ensures forall i, j :: 0 <= i < j < |r| ==> r[i] != r[j]
  {
    if s == [] then []
    else
      var r := Dedup(s[..|s| - 1]);
      if s[|s| - 1] in r then r else r + [s[|s| - 1]]
  }

  /** The jersey `x` is worn by two different players. */
  predicate Repeated(js: seq<string>, x: string)
  {
    exists i, j :: 0 <= i < j < |js| && js[i] == x && js[j] == x
  }

  /** The duplicates validatePlayers reports are exactly the repeated jerseys. */
  lemma {:induction false} DuplicatesAreRepeated(js: seq<string>, x: string)
    ensures x in DuplicatesFrom(js, 0) <==> Repeated(js, x)
  {
    if x in DuplicatesFrom(js, 0) {
      var j :| 0 <= j < |js| && js[j] == x && x in js[..j];
      var i :| 0 <= i < j && js[..j][i] == x;
      assert js[i] == x;
    }
    if Repeated(js, x) {
      var i, j :| 0 <= i < j < |js| && js[i] == x && js[j] == x;
      assert js[..j][i] == x;
    }
  }

  /** No two players share a jersey string. */
  predicate JerseysDistinct(ps: seq<PlayerInput>)
  {
    forall i, j :: 0 <= i < j < |ps| ==> ps[i].jersey != ps[j].jersey
  }

  lemma DistinctIffNoDuplicates(ps: seq<PlayerInput>)
    ensures JerseysDistinct(ps) <==> DuplicatesFrom(Jerseys(ps), 0) == []
  {
    var js := Jerseys(ps);
    if JerseysDistinct(ps) && DuplicatesFrom(js, 0) != [] {
      DuplicatesAreRepeated(js, DuplicatesFrom(js, 0)[0]);
    }
    if !JerseysDistinct(ps) {
      var i, j :| 0 <= i < j < |ps| && ps[i].jersey == ps[j].jersey;
      DuplicatesAreRepeated(js, js[i]);
      assert js[i] in DuplicatesFrom(js, 0);
    }
  }

  /** Player `i` names a position outside the sport's non-empty vocabulary. */
  predicate PositionRejected(ps: seq<PlayerInput>, positions: seq<string>, i: nat)
    requires i < |ps|
  {
    |positions| > 0 && ps[i].position != "" && ps[i].position !in positions
  }

  /** One message per player from index `k` on whose position is rejected. */
  function PositionErrors(ps: seq<PlayerInput>, positions: seq<string>, k: nat): (errs: seq<RosterError>)
    requires k <= |ps|
    decreases |ps| - k
    ensures forall e :: e in errs ==>
      e.InvalidPosition? && k < e.player <= |ps| && e.position == ps[e.player - 1].position
      && PositionRejected(ps, positions, e.player - 1)
    ensures forall i :: k <= i < |ps| && PositionRejected(ps, positions, i) ==>
      InvalidPosition(ps[i].position, i + 1) in errs
  {
    if k == |ps| then []
    else
      var rest := PositionErrors(ps, positions, k + 1);
      if PositionRejected(ps, positions, k) then [InvalidPosition(ps[k].position, k + 1)] + rest else rest
  }

  /** Every position a player gives belongs to the sport's vocabulary, when
      the sport has one. */
  predicate PositionsKnown(ps: seq<PlayerInput>, sportName: string)
  {
    forall i :: 0 <= i < |ps| ==> !PositionRejected(ps, SportPositions(sportName), i)
  }

  /** Exactly one goalkeeper among the main players of an 11-a-side football
      roster, exactly one wicket-keeper among those of a T20 cricket roster. */
  predicate KeeperRule(ps: seq<PlayerInput>, sportName: string)
  {
    && (sportName == Football ==> CountMainAt(ps, "Goalkeeper") == 1)
    && (sportName == Cricket ==> CountMainAt(ps, "Wicket-keeper") == 1)
  }

  /** The roster rules server.js enforces, stated independently of the order
      and shape of its messages. */
  predicate RosterAccepted(ps: seq<PlayerInput>, sportName: string, teamSize: int, maxSubs: int)
  {
    && CountKind(ps, Main) == teamSize
    && CountKind(ps, Substitute) <= maxSubs
    && JerseysDistinct(ps)
    && PositionsKnown(ps, sportName)
    && KeeperRule(ps, sportName)
  }

  predicate HasDuplicateReport(errs: seq<RosterError>)
  {
    exists e :: e in errs && e.DuplicateJerseys?
  }

  /** The two count messages. */
  function CountErrors(ps: seq<PlayerInput>, teamSize: int, maxSubs: int): (errs: seq<RosterError>)
    ensures forall e :: e in errs ==> e.MainCountMismatch? || e.TooManySubstitutes?
    ensures errs == [] <==> CountKind(ps, Main) == teamSize && CountKind(ps, Substitute) <= maxSubs
    ensures MainCountMismatch(teamSize, CountKind(ps, Main)) in errs <==> CountKind(ps, Main) != teamSize
    ensures TooManySubstitutes(maxSubs, CountKind(ps, Substitute)) in errs <==> CountKind(ps, Substitute) > maxSubs
  {
    var mains := CountKind(ps, Main);
    var subs := CountKind(ps, Substitute);
    (if mains != teamSize then [MainCountMismatch(teamSize, mains)] else [])
    + (if subs > maxSubs then [TooManySubstitutes(maxSubs, subs)] else [])
  }

  /** The duplicate-jersey message: every repeated jersey, each listed once. */
  function DuplicateErrors(ps: seq<PlayerInput>): (errs: seq<RosterError>)
    ensures forall e :: e in errs ==> e.DuplicateJerseys?
    ensures errs == [] <==> JerseysDistinct(ps)
    ensures forall d :: DuplicateJerseys(d) in errs ==>
      (forall x :: x in d <==> Repeated(Jerseys(ps), x)) && (forall i, j :: 0 <= i < j < |d| ==> d[i] != d[j])
  {
    var dups := DuplicatesFrom(Jerseys(ps), 0);
    DistinctIffNoDuplicates(ps);
    forall x ensures x in Dedup(dups) <==> Repeated(Jerseys(ps), x) {
      DuplicatesAreRepeated(Jerseys(ps), x);
    }
    if |dups| > 0 then [DuplicateJerseys(Dedup(dups))] else []
  }

  /** The position messages, only for a sport with a vocabulary. */
  function PositionPart(ps: seq<PlayerInput>, sportName: string): (errs: seq<RosterError>)
    ensures forall e :: e in errs ==> e.InvalidPosition?
    ensures errs == [] <==> PositionsKnown(ps, sportName)
    ensures forall i :: 0 <= i < |ps| ==>
      (InvalidPosition(ps[i].position, i + 1) in errs <==> PositionRejected(ps, SportPositions(sportName), i))
  {
    var positions := SportPositions(sportName);
    var errs := if |positions| > 0 then PositionErrors(ps, positions, 0) else [];
    assert errs == [] <==> PositionsKnown(ps, sportName) by {
      if errs != [] {
        assert errs[0] in errs;
      }
      if !PositionsKnown(ps, sportName) {
        var i :| 0 <= i < |ps| && PositionRejected(ps, positions, i);
        assert InvalidPosition(ps[i].position, i + 1) in errs;
      }
    }
    errs
  }

  /** The goalkeeper and wicket-keeper messages. */
  function KeeperErrors(ps: seq<PlayerInput>, sportName: string): (errs: seq<RosterError>)
    ensures forall e :: e in errs ==> e == GoalkeeperCount || e == WicketKeeperCount
    ensures errs == [] <==> KeeperRule(ps, sportName)
    ensures GoalkeeperCount in errs <==> sportName == Football && CountMainAt(ps, "Goalkeeper") != 1
    ensures WicketKeeperCount in errs <==> sportName == Cricket && CountMainAt(ps, "Wicket-keeper") != 1
  {
    (if sportName == Football && CountMainAt(ps, "Goalkeeper") != 1 then [GoalkeeperCount] else [])
    + (if sportName == Cricket && CountMainAt(ps, "Wicket-keeper") != 1 then [WicketKeeperCount] else [])
  }

  lemma InConcat<T>(a: seq<T>, b: seq<T>, x: T)
    ensures x in a + b <==> x in a || x in b
  {
  }

  /** validatePlayers: no message at all exactly when the roster satisfies
      every rule. */
  function ValidatePlayers(ps: seq<PlayerInput>, sportName: string, teamSize: int, maxSubs: int)
    : (errs: seq<RosterError>)
    ensures errs == [] <==> RosterAccepted(ps, sportName, teamSize, maxSubs)
  {
    CountErrors(ps, teamSize, maxSubs) + DuplicateErrors(ps) + PositionPart(ps, sportName) + KeeperErrors(ps, sportName)
  }

  lemma InValidation(ps: seq<PlayerInput>, sportName: string, teamSize: int, maxSubs: int, e: RosterError)
    ensures e in ValidatePlayers(ps, sportName, teamSize, maxSubs) <==>
      || e in CountErrors(ps, teamSize, maxSubs) || e in DuplicateErrors(ps)
      || e in PositionPart(ps, sportName) || e in KeeperErrors(ps, sportName)
  {
    var a := CountErrors(ps, teamSize, maxSubs);
    var b := DuplicateErrors(ps);
    var c := PositionPart(ps, sportName);
    var d := KeeperErrors(ps, sportName);
    InConcat(a + b + c, d, e);
    InConcat(a + b, c, e);
    InConcat(a, b, e);
  }

  /** The count and keeper messages of validatePlayers: each appears exactly
      when its rule is broken. */
  lemma CountAndKeeperMessages(ps: seq<PlayerInput>, sportName: string, teamSize: int, maxSubs: int)
    ensures var errs := ValidatePlayers(ps, sportName, teamSize, maxSubs);
      && (MainCountMismatch(teamSize, CountKind(ps, Main)) in errs <==> CountKind(ps, Main) != teamSize)
      && (TooManySubstitutes(maxSubs, CountKind(ps, Substitute)) in errs <==> CountKind(ps, Substitute) > maxSubs)
      && (GoalkeeperCount in errs <==> sportName == Football && CountMainAt(ps, "Goalkeeper") != 1)
      && (WicketKeeperCount in errs <==> sportName == Cricket && CountMainAt(ps, "Wicket-keeper") != 1)
  {
    CountMessages(ps, sportName, teamSize, maxSubs);
    KeeperMessages(ps, sportName, teamSize, maxSubs);
  }

  /** The two count messages of validatePlayers. */
  lemma CountMessages(ps: seq<PlayerInput>, sportName: string, teamSize: int, maxSubs: int)
    ensures var errs := ValidatePlayers(ps, sportName, teamSize, maxSubs);
      && (MainCountMismatch(teamSize, CountKind(ps, Main)) in errs <==> CountKind(ps, Main) != teamSize)
      && (TooManySubstitutes(maxSubs, CountKind(ps, Substitute)) in errs <==> CountKind(ps, Substitute) > maxSubs)
  {
    InValidation(ps, sportName, teamSize, maxSubs, MainCountMismatch(teamSize, CountKind(ps, Main)));
    InValidation(ps, sportName, teamSize, maxSubs, TooManySubstitutes(maxSubs, CountKind(ps, Substitute)));
  }

  /** The two keeper messages of validatePlayers. */
  lemma KeeperMessages(ps: seq<PlayerInput>, sportName: string, teamSize: int, maxSubs: int)
    ensures var errs := ValidatePlayers(ps, sportName, teamSize, maxSubs);
      && (GoalkeeperCount in errs <==> sportName == Football && CountMainAt(ps, "Goalkeeper") != 1)
      && (WicketKeeperCount in errs <==> sportName == Cricket && CountMainAt(ps, "Wicket-keeper") != 1)
  {
    InValidation(ps, sportName, teamSize, maxSubs, GoalkeeperCount);
    InValidation(ps, sportName, teamSize, maxSubs, WicketKeeperCount);
  }

  /** The jersey message of validatePlayers appears exactly when two players
      share a jersey. */
  lemma JerseyMessageIffShared(ps: seq<PlayerInput>, sportName: string, teamSize: int, maxSubs: int)
    ensures HasDuplicateReport(ValidatePlayers(ps, sportName, teamSize, maxSubs)) <==> !JerseysDistinct(ps)
  {
    var a, b := CountErrors(ps, teamSize, maxSubs), DuplicateErrors(ps);
    var c, d := PositionPart(ps, sportName), KeeperErrors(ps, sportName);
    DuplicateReportOnlyFromJerseys(a, b, c, d);
  }

  /** Of the four message groups only the jersey group can hold a duplicate
      report. */
  lemma DuplicateReportOnlyFromJerseys(a: seq<RosterError>, b: seq<RosterError>, c: seq<RosterError>, d: seq<RosterError>)
    requires forall e :: e in a ==> !e.DuplicateJerseys?
    requires forall e :: e in c ==> !e.DuplicateJerseys?
    requires forall e :: e in d ==> !e.DuplicateJerseys?
    requires forall e :: e in b ==> e.DuplicateJerseys?
    ensures HasDuplicateReport(a + b + c + d) <==> b != []
  {
    var errs := a + b + c + d;
    if b != [] {
      assert errs[|a|] == b[0];
      assert errs[|a|] in errs && errs[|a|].DuplicateJerseys?;
    }
    if HasDuplicateReport(errs) {
      var e :| e in errs && e.DuplicateJerseys?;
      InConcat(a + b + c, d, e);
      InConcat(a + b, c, e);
      InConcat(a, b, e);
      assert e in b;
    }
  }

  /** The jersey message lists each repeated jersey exactly once. */
  lemma JerseyMessageLists(ps: seq<PlayerInput>, sportName: string, teamSize: int, maxSubs: int, d: seq<string>)
    requires DuplicateJerseys(d) in ValidatePlayers(ps, sportName, teamSize, maxSubs)
    ensures forall x :: x in d <==> Repeated(Jerseys(ps), x)
    ensures forall i, j :: 0 <= i < j < |d| ==> d[i] != d[j]
  {
    InValidation(ps, sportName, teamSize, maxSubs, DuplicateJerseys(d));
  }

  /** The position messages of validatePlayers: one per player whose
      position is rejected, naming the player by its position in the roster. */
  lemma PositionMessages(ps: seq<PlayerInput>, sportName: string, teamSize: int, maxSubs: int)
    ensures var errs := ValidatePlayers(ps, sportName, teamSize, maxSubs);
      forall i :: 0 <= i < |ps| ==>
        (InvalidPosition(ps[i].position, i + 1) in errs <==> PositionRejected(ps, SportPositions(sportName), i))
  {
    forall i | 0 <= i < |ps|
      ensures InvalidPosition(ps[i].position, i + 1) in ValidatePlayers(ps, sportName, teamSize, maxSubs)
              <==> PositionRejected(ps, SportPositions(sportName), i)
    {
      InValidation(ps, sportName, teamSize, maxSubs, InvalidPosition(ps[i].position, i + 1));
    }
  }

  // ---------------------------------------------------------------------
  // Per-player field checks (run while inserting each player)
  // ---------------------------------------------------------------------

  datatype FieldError =
    | NameOrJerseyMissing  // 'Player name and jersey number required for all players'
    | InvalidName          // 'Invalid player name: ...'
    | NameLength           // 'Player name must be between 2 and 50 characters'
    | InvalidJersey        // 'Invalid jersey number: ...'
    | JerseyOutOfRange     // 'Jersey number must be between 0 and 99'

  /** A character the pattern `[a-zA-Z\s'-]` admits. */
  predicate NameChar(c: char)
  {
    IsAsciiLetter(c) || IsSpace(c) || c == '\'' || c == '-'
  }

  /** The regular expression `^[a-zA-Z\s'-]+$`. */
  predicate MatchesNamePattern(s: string)
  {
    |s| > 0 && forall i :: 0 <= i < |s| ==> NameChar(s[i])
  }

  /** Trimming a name made of pattern characters leaves pattern characters. */
  lemma TrimKeepsNameChars(s: string)
    requires MatchesNamePattern(s)
    ensures forall i :: 0 <= i < |Trim(s)| ==> NameChar(Trim(s)[i])
  {
    TrimIsInfix(s);
    var k := |s| - |TrimStart(s)|;
    forall i | 0 <= i < |Trim(s)| ensures NameChar(Trim(s)[i]) {
      assert Trim(s)[i] == s[k + i];
    }
  }

  /** The pattern admits only characters of the Basic Multilingual Plane, so
      a matching name's trimmed `.length` is its number of characters, which
      is what the 2-to-50 rule below counts. */
  lemma NameLengthIsCodeUnits(s: string)
    requires MatchesNamePattern(s)
    ensures Utf16Length(Trim(s)) == |Trim(s)|
  {
    TrimKeepsNameChars(s);
  }

  /** The first failing field check of one player, in the order server.js checks them. */
  function CheckPlayerFields(p: PlayerInput): (r: Option<FieldError>)
    ensures r.None? ==>
      && 2 <= |Trim(p.name)| <= 50
      && (forall i :: 0 <= i < |Trim(p.name)| ==> NameChar(Trim(p.name)[i]))
      && AllDigits(p.jersey) && Trim(p.jersey) == p.jersey && DecimalValue(p.jersey) <= 99
    ensures r == Some(NameOrJerseyMissing) <==> p.name == [] || p.jersey == []
    ensures r.Some? && r != Some(NameOrJerseyMissing) ==> p.name != [] && p.jersey != []
    ensures r.None? <==>
      && p.name != [] && p.jersey != [] && MatchesNamePattern(p.name) && 2 <= |Trim(p.name)| <= 50
      && AllDigits(p.jersey) && DecimalValue(p.jersey) <= 99
    ensures r == Some(InvalidName) ==> !MatchesNamePattern(p.name)
    ensures r == Some(InvalidJersey) ==> !AllDigits(p.jersey)
    ensures r == Some(JerseyOutOfRange) ==> AllDigits(p.jersey) && DecimalValue(p.jersey) > 99
  {
    if p.name == [] || p.jersey == [] then Some(NameOrJerseyMissing)
    else if !MatchesNamePattern(p.name) then Some(InvalidName)
    else if |Trim(p.name)| < 2 || |Trim(p.name)| > 50 then Some(NameLength)
    else if !AllDigits(p.jersey) then Some(InvalidJersey)
    else if DecimalValue(p.jersey) > 99 then Some(JerseyOutOfRange)
    else
      TrimDigits(p.jersey);
      TrimKeepsNameChars(p.name);
      None
  }

  /** The accepted players have valid fields, checked one at a time. */
  predicate AllFieldsValid(ps: seq<PlayerInput>)
  {
    forall i :: 0 <= i < |ps| ==> CheckPlayerFields(ps[i]).None?
  }

  /** Checking one more passing player extends the passing prefix. */
  lemma FieldsValidExtend(ps: seq<PlayerInput>, i: nat)
    requires i < |ps| && AllFieldsValid(ps[..i]) && CheckPlayerFields(ps[i]).None?
    ensures AllFieldsValid(ps[..i + 1])
  {
    assert forall j :: 0 <= j < i ==> ps[..i + 1][j] == ps[..i][j];
  }

  /** The players before a passing prefix's end all pass. */
  lemma FieldsValidPrefix(ps: seq<PlayerInput>, i: nat)
    requires i <= |ps| && AllFieldsValid(ps[..i])
    ensures forall j :: 0 <= j < i ==> CheckPlayerFields(ps[j]).None?
  {
    assert forall j :: 0 <= j < i ==> ps[..i][j] == ps[j];
  }

  /** Jerseys are compared as text by validatePlayers but range-checked as
      numbers: "7" and "07" pass both checks although they parse to the same
      number. */
  lemma JerseysComparedAsText()
    ensures var ps := [PlayerInput("Ann", "7", None, "", Main), PlayerInput("Bob", "07", None, "", Main)];
      && RosterAccepted(ps, "Chess", 2, 0)
      && AllFieldsValid(ps)
      && DecimalValue(ps[0].jersey) == DecimalValue(ps[1].jersey)
  {
    var ps := [PlayerInput("Ann", "7", None, "", Main), PlayerInput("Bob", "07", None, "", Main)];
    assert RosterAccepted(ps, "Chess", 2, 0) by {
      assert ps[..1] == [ps[0]] && ps[..0] == [];
      assert CountKind(ps, Main) == 2;
      assert CountKind(ps, Substitute) == 0;
      assert "7" != "07" by {
        assert |"7"| != |"07"|;
      }
      assert SportPositions("Chess") == [];
      assert "Chess" != Football && "Chess" != Cricket by {
        assert |"Chess"| != |Football| && |"Chess"| != |Cricket|;
      }
    }
    assert AllFieldsValid(ps) by {
      NameAnn();
      NameBob();
      JerseySample("7");
      JerseySample("07");
      FieldsOfSample("Ann", "7");
      FieldsOfSample("Bob", "07");
      assert forall i :: 0 <= i < |ps| ==> ps[i] == PlayerInput("Ann", "7", None, "", Main) || ps[i] == PlayerInput("Bob", "07", None, "", Main);
    }
    JerseySample("7");
    JerseySample("07");
  }

  lemma NameAnn()
    ensures MatchesNamePattern("Ann") && Trim("Ann") == "Ann"
  {
    TrimWithoutSpaces("Ann");
  }

  lemma NameBob()
    ensures MatchesNamePattern("Bob") && Trim("Bob") == "Bob"
  {
    TrimWithoutSpaces("Bob");
  }

  lemma JerseySample(jersey: string)
    requires jersey == "7" || jersey == "07"
    ensures AllDigits(jersey) && DecimalValue(jersey) == 7
  {
    assert "07"[..1] == "0";
  }

  lemma FieldsOfSample(name: string, jersey: string)
    requires MatchesNamePattern(name) && Trim(name) == name && 2 <= |name| <= 50
    requires AllDigits(jersey) && DecimalValue(jersey) == 7
    ensures CheckPlayerFields(PlayerInput(name, jersey, None, "", Main)).None?
  {
  }
}
