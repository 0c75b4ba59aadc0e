/**
 * The `help` object: the topics loaded from the help data (`help_texts`,
 * keyed by order), the hotkeys of each loaded record (`hotkeys`), the menu
 * and the dispatch of keystrokes to topics.
 */
module HelpScreen {
  import opened Strings
  import opened Externals
  import opened HelpData
  import opened MenuLayout
  import opened DetailText
  import DirGrid
  import NoteColors
  import PressKeys

  /** One pass of the input loop: the action `handle_input` returned and the raw text typed. */
  datatype Event = Event(action: string, raw: string)

  /** What `help_texts[i]` reads: a missing topic reads as an empty one. */
  function EntryAt(m: map<int, Topic>, i: int): Topic
  {
    if i in m then m[i] else ("", [])
  }

  /** The texts the whole-line tokens stand for, as `deserialize` computes them. */
  function StaticsOf(env: Env): Statics
  {
    Statics(
      env.translate(NoteColors.Title) + NoteColors.Entries(env, env.noteColorNames),
      DirGrid.Render(DirGrid.FillAll(DirGrid.GridPieces(), env.keysBoundTo)),
      env.gamePaths)
  }

  /** `help_texts[o]` as a change of state: reading a missing order inserts an empty topic there. */
  function Touch(m: map<int, Topic>, o: int): map<int, Topic>
  {
    if o in m then m else m[o := ("", [])]
  }

  /** The indices of the records whose hotkeys include `input`, in ascending order. */
  function Matches(hotkeys: seq<seq<string>>, input: string): seq<nat>
  {
    if hotkeys == [] then []
    else
      var n := |hotkeys| - 1;
      Matches(hotkeys[..n], input) + if input in hotkeys[n] then [n] else []
  }

  /** The matches are exactly the indices whose hotkeys include the input. */
  lemma {:induction false} MatchesExact(hotkeys: seq<seq<string>>, input: string)
    ensures forall i: nat :: i in Matches(hotkeys, input) <==> i < |hotkeys| && input in hotkeys[i]
  {
    if hotkeys != [] {
      var n := |hotkeys| - 1;
      MatchesExact(hotkeys[..n], input);
      forall i: nat | i < n ensures hotkeys[..n][i] == hotkeys[i] {
      }
    }
  }

  /** The matches are in strictly ascending record order, so each topic is shown at most once. */
  lemma {:induction false} MatchesAscending(hotkeys: seq<seq<string>>, input: string)
    ensures forall a :: 0 <= a < |Matches(hotkeys, input)| ==> Matches(hotkeys, input)[a] < |hotkeys|
    ensures forall a, b :: 0 <= a < b < |Matches(hotkeys, input)| ==>
              Matches(hotkeys, input)[a] < Matches(hotkeys, input)[b]
  {
    if hotkeys != [] {
      var n := |hotkeys| - 1;
      MatchesAscending(hotkeys[..n], input);
    }
  }

  /** The pages shown for the matched topics, in order: topics without lines show nothing. */
  function Pages(env: Env, m: map<int, Topic>, ms: seq<nat>): seq<string>
    requires PressKeys.DescriptionsPlain(env.describeKeys)
  {
    if ms == [] then []
    else
      var page := Page(env, EntryAt(m, ms[|ms| - 1]).1);
      Pages(env, m, ms[..|ms| - 1]) + if page.Some? then [page.value] else []
  }

  /** Whether the loop ends after this event: only a `QUIT` that matched no topic ends it. */
  predicate Quits(hotkeys: seq<seq<string>>, e: Event)
  {
    e.action == "QUIT" && Matches(hotkeys, e.raw) == []
  }

  /** The pages shown over a run of events, up to and including the one that quits. */
  function Session(env: Env, hotkeys: seq<seq<string>>, m: map<int, Topic>, events: seq<Event>): seq<string>
    requires PressKeys.DescriptionsPlain(env.describeKeys)
  {
    if events == [] then []
    else
      Pages(env, m, Matches(hotkeys, events[0].raw))
      + if Quits(hotkeys, events[0]) then [] else Session(env, hotkeys, m, events[1..])
  }

  /** How many events the loop reads: up to the first unmatched `QUIT`, or all of them. */
  function Handled(hotkeys: seq<seq<string>>, events: seq<Event>): (n: nat)
    ensures n <= |events|
  {
    if events == [] then 0
    else if Quits(hotkeys, events[0]) then 1
    else 1 + Handled(hotkeys, events[1..])
  }

  /**
   * The loop stops exactly at the first event whose action is `QUIT` and
   * whose input matched no topic: every earlier event either was not `QUIT`
   * or matched a topic (and so became `CONFIRM`).
   */
  lemma {:induction false} HandledStopsAtQuit(hotkeys: seq<seq<string>>, events: seq<Event>)
    ensures forall k :: 0 <= k < Handled(hotkeys, events) - 1 ==> !Quits(hotkeys, events[k])
    ensures Handled(hotkeys, events) < |events| ==> Quits(hotkeys, events[Handled(hotkeys, events) - 1])
    ensures Handled(hotkeys, events) == 0 <==> events == []
  {
    if events != [] && !Quits(hotkeys, events[0]) {
      HandledStopsAtQuit(hotkeys, events[1..]);
      forall k | 1 <= k < Handled(hotkeys, events) - 1 ensures !Quits(hotkeys, events[k]) {
        assert events[1..][k - 1] == events[k];
      }
    }
  }

  /** The session from event `h` on: that event's pages, then the rest unless it quits. */
  lemma SessionFrom(env: Env, hotkeys: seq<seq<string>>, m: map<int, Topic>, events: seq<Event>, h: nat)
    requires PressKeys.DescriptionsPlain(env.describeKeys)
    requires h < |events|
    ensures Session(env, hotkeys, m, events[h..])
            == Pages(env, m, Matches(hotkeys, events[h].raw))
               + if Quits(hotkeys, events[h]) then [] else Session(env, hotkeys, m, events[h + 1..])
    ensures Handled(hotkeys, events[h..])
            == if Quits(hotkeys, events[h]) then 1 else 1 + Handled(hotkeys, events[h + 1..])
  {
    assert events[h..][1..] == events[h + 1..];
  }

  /**
   * The line loop of `help::deserialize`: a line that is exactly one of the
   * tokens is replaced by that token's text; every other line, including one
   * that merely contains a token, is kept. The number and order of lines stay.
   */
  method SubstituteStatic(st: Statics, messages: seq<string>) returns (lines: seq<string>)
    ensures lines == SubstituteAll(st, messages)
    ensures |lines| == |messages|
    ensures forall i :: 0 <= i < |messages| ==>
              (messages[i] == DrawNoteColors ==> lines[i] == st.noteColors)
              && (messages[i] == HelpDrawDirections ==> lines[i] == st.dirGrid)
              && (messages[i] == GameDirectories ==> lines[i] == st.gamePaths)
              && (messages[i] !in {DrawNoteColors, HelpDrawDirections, GameDirectories} ==> lines[i] == messages[i])
  {
    lines := messages;
    for i := 0 to |lines|
      invariant |lines| == |messages|
      invariant forall k :: 0 <= k < i ==> lines[k] == Substitute(st, messages[k])
      invariant forall k :: i <= k < |lines| ==> lines[k] == messages[k]
    {
      var line := lines[i];
      if line == DrawNoteColors {
        ReplaceAllWhole(DrawNoteColors, st.noteColors);
        line := ReplaceAll(line, DrawNoteColors, st.noteColors);
      } else if line == HelpDrawDirections {
        ReplaceAllWhole(HelpDrawDirections, st.dirGrid);
        line := ReplaceAll(line, HelpDrawDirections, st.dirGrid);
      } else if line == GameDirectories {
        line := st.gamePaths;
      }
      lines := lines[i := line];
    }
  }

  /** The legend and the diagram `deserialize` computes before reading the records. */
  method ComputeStatics(env: Env) returns (st: Statics)
    ensures st == StaticsOf(env)
  {
    var noteColors := NoteColors.GetNoteColors(env);
    var dirGrid := DirGrid.GetDirGrid(env.keysBoundTo);
    st := Statics(noteColors, dirGrid, env.gamePaths);
  }

  /** The orders `0 .. n - 1`. */
  function Range(n: nat): (r: set<int>)
    ensures forall o :: o in r <==> 0 <= o < n
    ensures |r| == n
  {
    if n == 0 then {} else Range(n - 1) + {n - 1}
  }

  /**
   * `help_texts` once every order below `n` has been read with `operator[]`:
   * each read of a missing order inserts an empty topic there.
   */
  function Filled(m: map<int, Topic>, n: nat): map<int, Topic>
  {
    if n == 0 then m else Touch(Filled(m, n - 1), n - 1)
  }

  /** The orders after the reads: those loaded and every one below `n`. */
  lemma {:induction false} FilledKeys(m: map<int, Topic>, n: nat)
    ensures forall o :: o in Filled(m, n) <==> o in m || 0 <= o < n
  {
    if n > 0 {
      FilledKeys(m, n - 1);
    }
  }

  /** A read never changes a loaded topic, and an inserted one is empty: each order reads as `EntryAt`. */
  lemma {:induction false} FilledAt(m: map<int, Topic>, n: nat, o: int)
    requires o in m || 0 <= o < n
    ensures o in Filled(m, n) && Filled(m, n)[o] == EntryAt(m, o)
  {
    if n > 0 {
      FilledKeys(m, n - 1);
      if o in m || 0 <= o < n - 1 {
        FilledAt(m, n - 1, o);
      }
    }
  }

  /**
   * With non-negative orders, reading the orders below `n` leaves at least
   * `n` topics; exactly `n` when no order reaches `n`, more when one does.
   */
  lemma FilledSize(m: map<int, Topic>, n: nat)
    requires forall o :: o in m ==> o >= 0
    ensures |Filled(m, n)| >= n
    ensures (forall o :: o in m ==> o < n) ==> |Filled(m, n)| == n
    ensures forall o :: o in m && o >= n ==> |Filled(m, n)| > n
  {
    FilledKeys(m, n);
    var keys := Filled(m, n).Keys;
    var extra := m.Keys - Range(n);
    assert keys == extra + Range(n);
    assert |keys| == |extra| + n;
    forall o | o in m && o >= n ensures |keys| > n {
      assert o in extra;
    }
    if forall o :: o in m ==> o < n {
      assert extra == {};
    }
  }

  /** While the size exceeds `n`, some order at or above `n` was loaded, so `n` is below the largest. */
  lemma FilledBelowLargest(m: map<int, Topic>, n: nat, largest: int)
    requires forall o :: o in m ==> 0 <= o <= largest
    requires n < |Filled(m, n)|
    ensures n <= largest
  {
    FilledSize(m, n);
  }

  /**
   * Once the size no longer exceeds `n`, the orders are exactly `0 .. n - 1`
   * and `n - 1` is the largest order loaded.
   */
  lemma FilledDone(m: map<int, Topic>, n: nat, largest: int)
    requires forall o :: o in m ==> 0 <= o <= largest
    requires largest == -1 || largest in m
    requires n <= largest + 1 && |Filled(m, n)| <= n
    ensures n == largest + 1 && |Filled(m, n)| == n
    ensures forall o :: o in Filled(m, n) <==> 0 <= o < n
  {
    FilledSize(m, n);
    FilledKeys(m, n);
  }

  /** The largest order of a map of non-negative orders, or -1 when it is empty. */
  lemma LargestOrder(m: map<int, Topic>) returns (largest: int)
    requires forall o :: o in m ==> o >= 0
    ensures forall o :: o in m ==> 0 <= o <= largest
    ensures largest == -1 || largest in m
    decreases |m|
  {
    if x :| x in m {
      var rest := LargestOrder(m - {x});
      largest := if rest > x then rest else x;
      forall o | o in m ensures o <= largest {
        if o != x {
          assert o in m - {x};
        }
      }
    } else {
      largest := -1;
    }
  }

  /**
   * A negative order makes `draw_menu` loop forever: whatever the number of
   * orders read so far, the size of `help_texts` is still above it, so the
   * condition `i < help_texts.size()` never fails.
   */
  lemma NegativeOrderNeverStops(m: map<int, Topic>, n: nat, o: int)
    requires o in m && o < 0
    ensures n < |Filled(m, n)|
  {
    FilledKeys(m, n);
    var keys := Filled(m, n).Keys;
    var low := Range(n) + {o};
    assert o !in Range(n);
    assert |low| == n + 1;
    assert low <= keys;
    assert keys == (keys - low) + low;
  }

  /**
   * Gaps between orders make labels collide: with the orders 0, 2 and 4,
   * `half_size` is 2 but five labels are printed, and the labels of orders
   * 2 and 4 both go to the top row of the second column.
   */
  lemma SpacedOrdersCollide(env: Env, m: map<int, Topic>, width: nat, top: int)
    requires m.Keys == {0, 2, 4}
    ensures var l := Layout(MenuNames(env, m, 5), env.textWidth, Half(|m|), width, top);
            && |l| == 5
            && (l[2].x, l[2].y) == (l[4].x, l[4].y)
            && l[2].text == env.translate(m[2].0) && l[4].text == env.translate(m[4].0)
  {
    assert |m.Keys| == 3 by {
      assert m.Keys == {0} + {2} + {4};
    }
    assert Half(|m|) == 2;
  }

  /**
   * The hotkeys of the record at index `i` select the topic stored under
   * order `i`, not the one of that record: here the first record (order 1)
   * has its hotkeys at index 0, where the second record's topic (order 0) is
   * stored.
   */
  lemma HotkeysSelectByIndex(hotkeysOf: string -> seq<string>, st: Statics, a: Record, b: Record, input: string)
    requires a.order == 1 && b.order == 0 && input in hotkeysOf(a.name)
    ensures var records := [a, b];
            && HotkeyLists(hotkeysOf, records)[0] == hotkeysOf(a.name)
            && 0 in Matches(HotkeyLists(hotkeysOf, records), input)
            && EntryAt(Load(map[], st, records), 0) == TopicOf(st, b)
  {
    var records := [a, b];
    MatchesExact(HotkeyLists(hotkeysOf, records), input);
    assert records[..1] == [a] && [a][..0] == [];
  }

  /** The menu labels for `n` orders: the translated name of each topic, empty where an order is missing. */
  function MenuNames(env: Env, m: map<int, Topic>, n: nat): (labels: seq<string>)
    ensures |labels| == n
    ensures forall k :: 0 <= k < n ==> labels[k] == env.translate(EntryAt(m, k).0)
  {
    if n == 0 then [] else MenuNames(env, m, n - 1) + [env.translate(EntryAt(m, n - 1).0)]
  }

  /**
   * Printing the label of order `i` keeps the loop's state the layout of the
   * labels printed so far and their second column.
   */
  lemma MenuStep(env: Env, m: map<int, Topic>, i: nat, half: nat, width: nat, top: int,
                 column: int, placed: seq<Placement>, c: string)
    requires half > 0
    requires c == env.translate(EntryAt(m, i).0)
    requires column == SecondColumn(MenuNames(env, m, i), env.textWidth, half, width)
    requires placed == Layout(MenuNames(env, m, i), env.textWidth, half, width, top)
    ensures var column' := if i < half then Max(column, env.textWidth(c) + 4) else column;
            && column' == SecondColumn(MenuNames(env, m, i + 1), env.textWidth, half, width)
            && placed + [Placement(if i < half then 1 else column', top + i % half, c)]
               == Layout(MenuNames(env, m, i + 1), env.textWidth, half, width, top)
  {
    var names := MenuNames(env, m, i);
    assert MenuNames(env, m, i + 1) == names + [c];
    SecondColumnSnoc(names, c, env.textWidth, half, width);
    LayoutSnoc(names, c, env.textWidth, half, width, top);
  }

  /** `help_texts` after reading the orders `ms` in turn. */
  function Opened(m: map<int, Topic>, ms: seq<nat>): map<int, Topic>
  {
    if ms == [] then m else Touch(Opened(m, ms[..|ms| - 1]), ms[|ms| - 1])
  }

  /** The reads add exactly the orders read, and every order still reads as before. */
  lemma {:induction false} OpenedEntries(m: map<int, Topic>, ms: seq<nat>, o: int)
    ensures o in Opened(m, ms) <==> o in m || o in ms
    ensures EntryAt(Opened(m, ms), o) == EntryAt(m, o)
  {
    if ms != [] {
      var init := ms[..|ms| - 1];
      OpenedEntries(m, init, o);
      assert ms == init + [ms[|ms| - 1]];
    }
  }

  /** Matching one more record's hotkeys appends its index, when it matches, to the matches so far. */
  lemma MatchesNext(hotkeys: seq<seq<string>>, input: string, i: nat)
    requires i < |hotkeys|
    ensures Matches(hotkeys[..i + 1], input)
            == Matches(hotkeys[..i], input) + if input in hotkeys[i] then [i] else []
  {
    assert hotkeys[..i + 1][..i] == hotkeys[..i];
  }

  /** Showing one more topic appends its page, when it has lines, to the pages shown so far. */
  lemma PagesNext(env: Env, m: map<int, Topic>, ms: seq<nat>, i: nat)
    requires PressKeys.DescriptionsPlain(env.describeKeys)
    ensures var page := Page(env, EntryAt(m, i).1);
            Pages(env, m, ms + [i]) == Pages(env, m, ms) + if page.Some? then [page.value] else []
  {
    assert (ms + [i])[..|ms|] == ms;
  }

  /** The pages depend on the topics only through what each order reads as. */
  lemma {:induction false} PagesSame(env: Env, m1: map<int, Topic>, m2: map<int, Topic>, ms: seq<nat>)
    requires PressKeys.DescriptionsPlain(env.describeKeys)
    requires forall o :: EntryAt(m1, o) == EntryAt(m2, o)
    ensures Pages(env, m1, ms) == Pages(env, m2, ms)
  {
    if ms != [] {
      PagesSame(env, m1, m2, ms[..|ms| - 1]);
    }
  }

  class Help {
    var helpTexts: map<int, Topic>
    var hotkeys: seq<seq<string>>

    constructor ()
      ensures helpTexts == map[] && hotkeys == []
    {
      helpTexts := map[];
      hotkeys := [];
    }

    /**
     * `help::deserialize`: the hotkeys start over, one entry per record; each
     * record's topic, with its lines substituted, is stored under its order,
     * a later record overwriting an earlier one of the same order. Topics
     * stored before and not overwritten stay.
     */
    method Deserialize(env: Env, records: seq<Record>)
      modifies this
      ensures helpTexts == Load(old(helpTexts), StaticsOf(env), records)
      ensures hotkeys == HotkeyLists(env.hotkeysOf, records)
    {
      hotkeys := [];
      var st := ComputeStatics(env);
      var texts := helpTexts;
      var lists: seq<seq<string>> := [];
      for j := 0 to |records|
        invariant texts == Load(old(helpTexts), st, records[..j])
        invariant lists == HotkeyLists(env.hotkeysOf, records[..j])
      {
        var messages := records[j].messages;
        messages := SubstituteStatic(st, messages);
        var name := records[j].name;
        LoadNext(old(helpTexts), st, records, j, texts, (name, messages));
        texts := texts[records[j].order := (name, messages)];
        assert records[..j + 1][..j] == records[..j];
        lists := lists + [env.hotkeysOf(name)];
      }
      assert records[..|records|] == records;
      helpTexts, hotkeys := texts, lists;
    }

    /**
     * `help::draw_menu`. Reading `help_texts[i]` for every `i` below the
     * current size inserts an empty topic at each missing order, so the
     * orders end up exactly `0 .. n - 1`, `n - 1` being the largest order
     * loaded. Each topic's translated name is placed by `Layout`, with the
     * column split `half_size` taken from the size before the insertions.
     */
    method DrawMenu(env: Env, width: nat, top: int) returns (placed: seq<Placement>)
      requires forall o :: o in helpTexts ==> o >= 0
      modifies this`helpTexts
      ensures forall o :: o in helpTexts <==> 0 <= o < |helpTexts|
      ensures forall o :: o in helpTexts ==> helpTexts[o] == EntryAt(old(helpTexts), o)
      ensures old(helpTexts).Keys <= helpTexts.Keys
      ensures |helpTexts| == 0 || |helpTexts| - 1 in old(helpTexts)
      ensures placed == Layout(MenuNames(env, old(helpTexts), |helpTexts|), env.textWidth, Half(|old(helpTexts)|), width, top)
    {
      ghost var m0 := helpTexts;
      ghost var largest := LargestOrder(m0);
      var halfSize := |helpTexts| / 2 + 1;
      var secondColumn := DivideRoundUp(width, 2);
      placed := [];
      var i := 0;
      assert helpTexts == Filled(m0, 0);
      while i < |helpTexts|
        invariant i <= largest + 1
        invariant helpTexts == Filled(m0, i)
        invariant secondColumn == SecondColumn(MenuNames(env, m0, i), env.textWidth, halfSize, width)
        invariant placed == Layout(MenuNames(env, m0, i), env.textWidth, halfSize, width, top)
        decreases largest + 1 - i
      {
        FilledBelowLargest(m0, i, largest);
        if i !in helpTexts {
          helpTexts := helpTexts[i := ("", [])];
        }
        FilledAt(m0, i + 1, i);
        var catName := env.translate(helpTexts[i].0);
        MenuStep(env, m0, i, halfSize, width, top, secondColumn, placed, catName);
        if i < halfSize {
          secondColumn := Max(secondColumn, env.textWidth(catName) + 4);
        }
        placed := placed + [Placement(if i < halfSize then 1 else secondColumn, top + i % halfSize, catName)];
        i := i + 1;
      }
      FilledDone(m0, i, largest);
      FilledKeys(m0, i);
      assert forall o :: o in m0.Keys ==> o in helpTexts.Keys;
      forall o | o in helpTexts ensures helpTexts[o] == EntryAt(m0, o) {
        FilledAt(m0, i, o);
      }
      assert halfSize == Half(|m0|);
    }
    /**
     * The body run for a matching hotkey of topic `i`: reading `help_texts[i]`
     * inserts an empty topic when `i` is missing; each line is translated and
     * its `<press_` tokens expanded; a topic with lines shows them joined by
     * blank lines, one without lines shows nothing.
     */
    method ShowTopic(env: Env, i: int) returns (page: Option<string>)
      requires PressKeys.DescriptionsPlain(env.describeKeys)
      modifies this`helpTexts
      ensures page == Page(env, EntryAt(old(helpTexts), i).1)
      ensures page.Some? <==> EntryAt(old(helpTexts), i).1 != []
      ensures helpTexts == Touch(old(helpTexts), i)
    {
      if i !in helpTexts {
        helpTexts := helpTexts[i := ("", [])];
      }
      var lines := helpTexts[i].1;
      var texts: seq<string> := [];
      for k := 0 to |lines|
        invariant texts == Expanded(env, lines[..k])
        modifies {}
      {
        var lineProc := PressKeys.ExpandPressKeys(env.describeKeys, env.translate(lines[k]));
        ExpandedNext(env, lines, k);
        texts := texts + [lineProc];
      }
      assert lines[..|lines|] == lines;
      if texts != [] {
        page := Some(JoinParagraphs(texts));
      } else {
        page := None;
      }
    }

    /**
     * One keystroke of `help::display_help`: for every index `i` whose
     * hotkey list (that of the `i`-th record loaded) includes the raw input,
     * the topic stored under order `i` is shown, in ascending `i`, each at
     * most once; `matched` tells whether any index did (the action then
     * becomes `CONFIRM`). The only change to the topics is an empty one
     * inserted at each matched order that was missing.
     */
    method HandleKey(env: Env, input: string) returns (pages: seq<string>, matched: bool)
      requires PressKeys.DescriptionsPlain(env.describeKeys)
      modifies this`helpTexts
      ensures pages == Pages(env, old(helpTexts), Matches(hotkeys, input))
      ensures matched <==> Matches(hotkeys, input) != []
      ensures helpTexts == Opened(old(helpTexts), Matches(hotkeys, input))
    {
      ghost var m0 := helpTexts;
      var keys := hotkeys;
      ghost var ms: seq<nat> := [];
      pages, matched := [], false;
      for i := 0 to |keys|
        invariant ms == Matches(keys[..i], input)
        invariant pages == Pages(env, m0, ms)
        invariant matched <==> ms != []
        invariant helpTexts == Opened(m0, ms)
      {
        MatchesNext(keys, input, i);
        var hit := false;
        for j := 0 to |keys[i]|
          invariant !hit && input !in keys[i][..j]
        {
          if input == keys[i][j] {
            hit := true;
            break;
          }
        }
        if hit {
          OpenedEntries(m0, ms, i);
          var page := ShowTopic(env, i);
          PagesNext(env, m0, ms, i);
          if page.Some? {
            pages := pages + [page.value];
          }
          matched := true;
          ms := ms + [i];
        } else {
          assert keys[i][..|keys[i]|] == keys[i];
        }
      }
      assert keys[..|keys|] == keys;
    }

    /**
     * The input loop of `help::display_help`, over the events read: each
     * event shows the pages of the topics its raw input selects; an event
     * that selected a topic counts as `CONFIRM`, so the loop ends after the
     * first `QUIT` that selected none (or when the events run out). What each
     * order reads as is unchanged. The first redraw runs `draw_menu`, which
     * never returns when an order is negative, so no event is read then.
     */
    method DisplayHelp(env: Env, events: seq<Event>) returns (shown: seq<string>, handled: nat)
      requires PressKeys.DescriptionsPlain(env.describeKeys)
      requires forall o :: o in helpTexts ==> o >= 0
      modifies this`helpTexts
      ensures handled == Handled(hotkeys, events)
      ensures shown == Session(env, hotkeys, old(helpTexts), events)
      ensures forall o :: EntryAt(helpTexts, o) == EntryAt(old(helpTexts), o)
    {
      ghost var m0 := helpTexts;
      var keys := hotkeys;
      shown, handled := [], 0;
      while handled < |events|
        invariant handled <= |events|
        invariant Session(env, keys, m0, events) == shown + Session(env, keys, m0, events[handled..])
        invariant Handled(keys, events) == handled + Handled(keys, events[handled..])
        invariant forall o :: EntryAt(helpTexts, o) == EntryAt(m0, o)
        decreases |events| - handled
      {
        var action := events[handled].action;
        var sInput := events[handled].raw;
        ghost var before := helpTexts;
        var pages, matched := HandleKey(env, sInput);
        forall o ensures EntryAt(helpTexts, o) == EntryAt(m0, o) {
          OpenedEntries(before, Matches(keys, sInput), o);
        }
        PagesSame(env, before, m0, Matches(keys, sInput));
        SessionFrom(env, keys, m0, events, handled);
        shown := shown + pages;
        if matched {
          action := "CONFIRM";
        }
        handled := handled + 1;
        if action == "QUIT" {
          break;
        }
      }
    }
  }
}
