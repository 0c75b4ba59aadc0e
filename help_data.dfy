/**
 * The help topics as `help::deserialize` stores them: records of the help
 * data file, keyed by their `order`, with whole-line tokens replaced by the
 * text they stand for.
 */
module HelpData {
  import opened Externals

  /** A topic: its name and its lines (`help_texts`' value type). */
  type Topic = (string, seq<string>)

  /** One object of the help data file. */
  datatype Record = Record(name: string, order: int, messages: seq<string>)

  /** The texts the whole-line tokens stand for, computed once per load. */
  datatype Statics = Statics(noteColors: string, dirGrid: string, gamePaths: string)

  const DrawNoteColors: string := "<DRAW_NOTE_COLORS>"
  const HelpDrawDirections: string := "<HELP_DRAW_DIRECTIONS>"
  const GameDirectories: string := "<GAME_DIRECTORIES>"

  /** What a stored line reads: a line that is exactly a token becomes that token's text. */
  function Substitute(st: Statics, line: string): string
  {
    if line == DrawNoteColors then st.noteColors
    else if line == HelpDrawDirections then st.dirGrid
    else if line == GameDirectories then st.gamePaths
    else line
  }

  function SubstituteAll(st: Statics, lines: seq<string>): (r: seq<string>)
    ensures |r| == |lines|
    ensures forall i :: 0 <= i < |lines| ==> r[i] == Substitute(st, lines[i])
  {
    if lines == [] then [] else [Substitute(st, lines[0])] + SubstituteAll(st, lines[1..])
  }

  /** The topic a record becomes. */
  function TopicOf(st: Statics, rec: Record): Topic
  {
    (rec.name, SubstituteAll(st, rec.messages))
  }

  /** `help_texts` after storing the records one after the other into `m`. */
  function Load(m: map<int, Topic>, st: Statics, records: seq<Record>): map<int, Topic>
  {
    if records == [] then m
    else
      var last := records[|records| - 1];
      Load(m, st, records[..|records| - 1])[last.order := TopicOf(st, last)]
  }

  /** Loading one more record stores its topic over what the earlier ones left. */
  lemma LoadNext(m: map<int, Topic>, st: Statics, records: seq<Record>, j: nat, texts: map<int, Topic>, t: Topic)
    requires j < |records|
    requires texts == Load(m, st, records[..j]) && t == TopicOf(st, records[j])
    ensures texts[records[j].order := t] == Load(m, st, records[..j + 1])
  {
    assert records[..j + 1][..j] == records[..j];
  }

  /** `hotkeys` after the records: one list per record, in file order, derived from its name. */
  function HotkeyLists(hotkeysOf: string -> seq<string>, records: seq<Record>): (lists: seq<seq<string>>)
    ensures |lists| == |records|
    ensures forall i :: 0 <= i < |records| ==> lists[i] == hotkeysOf(records[i].name)
  {
    if records == [] then []
    else HotkeyLists(hotkeysOf, records[..|records| - 1]) + [hotkeysOf(records[|records| - 1].name)]
  }

  /** The orders of the records. */
  function Orders(records: seq<Record>): set<int>
  {
    set r | r in records :: r.order
  }

  /** The topics loaded are the earlier ones and one per distinct order. */
  lemma {:induction false} LoadKeys(m: map<int, Topic>, st: Statics, records: seq<Record>)
    ensures Load(m, st, records).Keys == m.Keys + Orders(records)
  {
    if records != [] {
      var n := |records| - 1;
      LoadKeys(m, st, records[..n]);
      assert records == records[..n] + [records[n]];
      assert Orders(records) == Orders(records[..n]) + {records[n].order};
    }
  }

  /** For an order shared by several records, the last of them wins. */
  lemma {:induction false} LoadLastWins(m: map<int, Topic>, st: Statics, records: seq<Record>, j: nat)
    requires j < |records|
    requires forall k :: j < k < |records| ==> records[k].order != records[j].order
    ensures records[j].order in Load(m, st, records)
    ensures Load(m, st, records)[records[j].order] == TopicOf(st, records[j])
  {
    var n := |records| - 1;
    if j < n {
      LoadLastWins(m, st, records[..n], j);
    }
  }

  /** An order no record carries keeps its earlier topic, or stays absent. */
  lemma {:induction false} LoadKeepsOthers(m: map<int, Topic>, st: Statics, records: seq<Record>, o: int)
    requires forall k :: 0 <= k < |records| ==> records[k].order != o
    ensures o in Load(m, st, records) <==> o in m
    ensures o in m ==> Load(m, st, records)[o] == m[o]
  {
    if records != [] {
      LoadKeepsOthers(m, st, records[..|records| - 1], o);
    }
  }
}
