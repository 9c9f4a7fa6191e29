// Which records of the web buffer reach which endpoint string
// (main/serial_controller.h:367-474).
module Endpoints {
  import opened Tokenizing
  import opened WebBuffer

  // The keys of each endpoint, as the numbers of the keyValue enumeration
  const TRANS: seq<int> := [39, 41, 42, 43, 44, 45, 46, 47, 48]
  const TEMP: seq<int> := [19, 20, 17, 18, 21, 22, 23, 24]
  const TANQ: seq<int> := [31, 32, 33, 34, 35, 36, 37, 38]
  const DISP: seq<int> := [79, 80, 82, 88, 83]
  const BAT: seq<int> := [25, 26]
  const MOTOR: seq<int> := [2, 3, 4, 5, 6, 1, 7, 8, 9, 10, 130, 131, 132, 133]
  const INTERRUP: seq<int> := [64, 65, 66, 67, 68]
  const TEMPO: seq<int> := [69, 70, 71, 72, 73, 74, 75, 76, 77, 78]
  const GNSS: seq<int> := [119]
  const GROUPS: seq<seq<int>> := [TRANS, TEMP, TANQ, DISP, BAT, MOTOR, INTERRUP, TEMPO, GNSS]

  // The one endpoint a key belongs to, by key range; 9 for none.
  function GroupOf(key: int): (g: nat)
    ensures g <= 9
  {
    if key == 39 || 41 <= key <= 48 then 0
    else if 17 <= key <= 24 then 1
    else if 31 <= key <= 38 then 2
    else if key in {79, 80, 82, 83, 88} then 3
    else if 25 <= key <= 26 then 4
    else if 1 <= key <= 10 || 130 <= key <= 133 then 5
    else if 64 <= key <= 68 then 6
    else if 69 <= key <= 78 then 7
    else if key == 119 then 8
    else 9
  }

  ghost predicate NoRepeats(group: seq<int>) {
    forall i, j | 0 <= i < j < |group| :: group[i] != group[j]
  }

  // The tables are disjoint and list no key twice.
  lemma GroupsPartition(g: nat, key: int)
    requires g < 9
    ensures |GROUPS| == 9 && NoRepeats(GROUPS[g])
    ensures key in GROUPS[g] <==> GroupOf(key) == g
  {
    hide NoRepeats, GroupOf, TRANS, TEMP, TANQ, DISP, BAT, MOTOR, INTERRUP, TEMPO, GNSS;
    match g
    case 0 => TransTable(key);
    case 1 => TempTable(key);
    case 2 => TanqTable(key);
    case 3 => DispTable(key);
    case 4 => BatTable(key);
    case 5 => MotorTable(key);
    case 6 => InterrupTable(key);
    case 7 => TempoTable(key);
    case _ => GnssTable(key);
  }

  lemma TransTable(key: int)
    ensures NoRepeats(TRANS) && (key in TRANS <==> GroupOf(key) == 0)
  {
  }

  lemma TempTable(key: int)
    ensures NoRepeats(TEMP) && (key in TEMP <==> GroupOf(key) == 1)
  {
  }

  lemma TanqTable(key: int)
    ensures NoRepeats(TANQ) && (key in TANQ <==> GroupOf(key) == 2)
  {
  }

  lemma DispTable(key: int)
    ensures NoRepeats(DISP) && (key in DISP <==> GroupOf(key) == 3)
  {
  }

  lemma BatTable(key: int)
    ensures NoRepeats(BAT) && (key in BAT <==> GroupOf(key) == 4)
  {
  }

  lemma MotorTable(key: int)
    ensures NoRepeats(MOTOR) && (key in MOTOR <==> GroupOf(key) == 5)
  {
    MotorPlaces();
    assert key in MOTOR <==> GroupOf(key) == 5 by {
      hide NoRepeats;
    }
    hide MOTOR, GroupOf;
  }

  // Where a key stands in MOTOR
  function MotorPlace(key: int): int {
    if key == 1 then 5 else if key <= 6 then key - 2 else if key <= 10 then key - 1 else key - 120
  }

  lemma MotorPlaces()
    ensures forall i | 0 <= i < |MOTOR| :: MotorPlace(MOTOR[i]) == i
  {
  }

  lemma InterrupTable(key: int)
    ensures NoRepeats(INTERRUP) && (key in INTERRUP <==> GroupOf(key) == 6)
  {
  }

  lemma TempoTable(key: int)
    ensures NoRepeats(TEMPO) && (key in TEMPO <==> GroupOf(key) == 7)
  {
  }

  lemma GnssTable(key: int)
    ensures NoRepeats(GNSS) && (key in GNSS <==> GroupOf(key) == 8)
  {
  }

  // A record whose key selects endpoint g.
  predicate Goes(record: string, g: nat) {
    RecordKey(record).Some? && GroupOf(RecordKey(record).value) == g
  }

  // A record whose key is in one of the first n tables.
  predicate Reaches(record: string, n: nat) {
    RecordKey(record).Some? && GroupOf(RecordKey(record).value) < n
  }

  // The records that go to endpoint g, in order.
  function Selected(records: seq<string>, g: nat): seq<string> {
    if records == [] then []
    else
      var n := |records| - 1;
      Selected(records[..n], g) + if Goes(records[n], g) then [records[n]] else []
  }

  // What endpoint_discriminator leaves in the string of endpoint g.
  function EndpointText(records: seq<string>, g: nat): string {
    Framed(Selected(records, g), '|')
  }

  lemma SelectedNext(records: seq<string>, r: string, g: nat)
    ensures Selected(records + [r], g) == Selected(records, g) + if Goes(r, g) then [r] else []
    ensures EndpointText(records + [r], g) == EndpointText(records, g) + if Goes(r, g) then r + "|" else ""
  {
    hide Goes;
    var all, kept := records + [r], Selected(records, g);
    assert all[..|all| - 1] == records;
    if Goes(r, g) {
      var sel := kept + [r];
      assert sel[..|sel| - 1] == kept;
      assert EndpointText(all, g) == ['|'] + (Closed(kept, '|') + r + ['|']);
    } else {
      assert kept + [] == kept;
    }
  }

  lemma {:induction false} EndpointPrefix(records: seq<string>, g: nat, i: nat)
    requires i <= |records|
    ensures |EndpointText(records[..i], g)| <= |EndpointText(records, g)|
    decreases |records| - i
  {
    hide Goes, EndpointText;
    if i < |records| {
      EndpointPrefix(records, g, i + 1);
      assert records[..i + 1] == records[..i] + [records[i]];
      SelectedNext(records[..i], records[i], g);
    } else {
      assert records[..i] == records;
    }
  }

  lemma {:induction false} SelectedProper(records: seq<string>, g: nat)
    requires Proper(records, {'|'})
    ensures Proper(Selected(records, g), {'|'})
  {
    hide Goes;
    if records == [] {
    } else {
      SelectedProper(records[..|records| - 1], g);
    }
  }

  // Whatever text is split, its tokens are non-empty and free of the delimiter.
  lemma TokensProper(s: string, d: set<char>)
    ensures Proper(Tokens(s, d), d)
  {
    hide Tokens;
    var runs := TokensAreMaximalRuns(s, d);
    forall i | 0 <= i < |Tokens(s, d)| ensures Tokens(s, d)[i] != [] && Free(Tokens(s, d)[i], d) {
      assert runs[i] in runs;
    }
  }

  // Every endpoint string splits again into exactly the web buffer's records whose key is in
  // its table, in the web buffer's order, for any web buffer text at all.
  lemma EndpointIsFilter(web: string, g: nat)
    requires g < 9
    ensures Tokens(EndpointText(Tokens(web, {'|'}), g), {'|'}) == Selected(Tokens(web, {'|'}), g)
    ensures forall r :: r in Selected(Tokens(web, {'|'}), g) <==>
              r in Tokens(web, {'|'}) && RecordKey(r).Some? && RecordKey(r).value in GROUPS[g]
  {
    hide Tokens, Framed, RecordKey, GroupOf;
    var rs := Tokens(web, {'|'});
    TokensProper(web, {'|'});
    SelectedProper(rs, g);
    TokensOfFramed(Selected(rs, g), '|');
    SelectedMembers(rs, g);
    forall key: int ensures key in GROUPS[g] <==> GroupOf(key) == g { GroupsPartition(g, key); }
  }

  lemma {:induction false} SelectedMembers(records: seq<string>, g: nat)
    ensures forall r :: r in Selected(records, g) <==> r in records && Goes(r, g)
  {
    hide Goes;
    if records == [] {
    } else {
      var n := |records| - 1;
      SelectedMembers(records[..n], g);
      assert records == records[..n] + [records[n]];
    }
  }

  // The selection is a subsequence: the records at the positions, in order, whose key is in the
  // table, and no others.
  lemma {:induction false} SelectedPositions(records: seq<string>, g: nat) returns (at: seq<nat>)
    ensures |at| == |Selected(records, g)|
    ensures forall j | 0 <= j < |at| :: at[j] < |records| && Selected(records, g)[j] == records[at[j]]
    ensures forall j, k | 0 <= j < k < |at| :: at[j] < at[k]
    ensures forall i | 0 <= i < |records| :: i in at <==> Goes(records[i], g)
  {
    hide Goes;
    if records == [] {
      at := [];
    } else {
      var n := |records| - 1;
      at := SelectedPositions(records[..n], g);
      if Goes(records[n], g) { at := at + [n]; }
    }
  }

  // ---- Conservation -----------------------------------------------------------

  // Characters the first n endpoints hold after their leading bar.
  function PayloadLength(records: seq<string>, n: nat): nat {
    if n == 0 then 0 else PayloadLength(records, n - 1) + |Closed(Selected(records, n - 1), '|')|
  }

  lemma {:induction false} PayloadStep(records: seq<string>, r: string, n: nat)
    requires n <= 10
    ensures PayloadLength(records + [r], n) ==
            PayloadLength(records, n) + if Reaches(r, n) then |r| + 1 else 0
  {
    hide RecordKey, GroupOf;
    if n > 0 {
      PayloadStep(records, r, n - 1);
      var all := records + [r];
      assert all[..|all| - 1] == records;
      if Goes(r, n - 1) {
        var sel := Selected(records, n - 1) + [r];
        assert sel[..|sel| - 1] == Selected(records, n - 1);
      } else {
        assert Selected(all, n - 1) == Selected(records, n - 1);
      }
    }
  }

  // No record reaches two endpoints: together the nine endpoint strings hold no more payload
  // than the web buffer, and exactly as much when every record has a key in some table.
  lemma {:induction false} PayloadConserved(records: seq<string>)
    ensures PayloadLength(records, 9) <= |Closed(records, '|')|
    ensures PayloadLength(records, 9) == |Closed(records, '|')| <==>
              forall i | 0 <= i < |records| :: Reaches(records[i], 9)
  {
    hide Reaches;
    if records == [] {
      NothingSelected(9);
    } else {
      var n := |records| - 1;
      var rest, r := records[..n], records[n];
      assert records == rest + [r];
      PayloadConserved(rest);
      PayloadStep(rest, r, 9);
      assert forall i | 0 <= i < n :: records[i] == rest[i];
      assert Closed(records, '|') == Closed(rest, '|') + r + ['|'];
    }
  }

  lemma {:induction false} NothingSelected(n: nat)
    ensures PayloadLength([], n) == 0
  {
    if n == 0 {
    } else {
      NothingSelected(n - 1);
    }
  }
}
