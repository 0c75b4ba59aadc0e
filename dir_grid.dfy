/**
 * `help::get_dir_grid`: the movement diagram shown for `<HELP_DRAW_DIRECTIONS>`.
 * A fixed template holds two key slots `<IDENT_0>`, `<IDENT_1>` per movement
 * action; each is replaced by the corresponding bound key in light blue, or a
 * red `?` when the action has fewer bound keys.
 */
module DirGrid {
  import opened Strings
  import opened Externals

  type SlotIndex = i: nat | i < 2

  /** `movearray`: the diagram's actions, row by row. */
  const MoveArray: seq<MoveAction> := [
    MoveForthLeft, MoveForth, MoveForthRight,
    MoveLeft, Pause, MoveRight,
    MoveBackLeft, MoveBack, MoveBackRight
  ]

  /** The digit `string_format("%d", i)` prints for a slot index. */
  function Digit(i: SlotIndex): char
  {
    if i == 0 then '0' else '1'
  }

  /** The placeholder of key slot `i` of action `a`: `"<" + action_ident(a) + "_i>"`. */
  function SlotName(a: MoveAction, i: SlotIndex): string
  {
    "<" + ActionIdent(a) + "_" + [Digit(i)] + ">"
  }

  /** What slot `i` becomes, given the keys bound to its action. */
  function SlotFill(keys: seq<char>, i: SlotIndex): string
  {
    if i < |keys| then "<color_light_blue>" + [keys[i]] + "</color>"
    else "<color_red>?</color>"
  }

  /** Template text between placeholders: it holds no angle bracket. */
  type PlainText = t: string | '<' !in t && '>' !in t

  /**
   * The diagram as literal text, placeholders still to replace, and slots
   * already replaced by what the keys bound to their action give.
   */
  datatype Piece =
    | Lit(text: PlainText)
    | Slot(action: MoveAction, index: SlotIndex)
    | Key(keys: seq<char>, index: SlotIndex)

  function RenderPiece(p: Piece): string
  {
    match p
    case Lit(t) => t
    case Slot(a, i) => SlotName(a, i)
    case Key(k, i) => SlotFill(k, i)
  }

  function Render(ps: seq<Piece>): string
  {
    if ps == [] then [] else RenderPiece(ps[0]) + Render(ps[1..])
  }

  /** One row of the diagram for slot `i`: three placeholders separated by `sep`. */
  function Row(a: MoveAction, b: MoveAction, c: MoveAction, sep: PlainText, i: SlotIndex): seq<Piece>
  {
    [Slot(a, i), Lit(sep), Slot(b, i), Lit(sep), Slot(c, i)]
  }

  /** One line of the diagram: the row for slot 0, three spaces, the row for slot 1. */
  function Line(a: MoveAction, b: MoveAction, c: MoveAction, sep: PlainText): seq<Piece>
  {
    Row(a, b, c, sep, 0) + [Lit("   ")] + Row(a, b, c, sep, 1)
  }

  const UpperArt: PlainText := "\n \\ | /     \\ | /\n  \\|/       \\|/\n"
  const LowerArt: PlainText := "\n  /|\\       /|\\\n / | \\     / | \\\n"

  /** The diagram template `movement` starts from, piece by piece. */
  function GridPieces(): seq<Piece>
  {
    Line(MoveForthLeft, MoveForth, MoveForthRight, "  ") + [Lit(UpperArt)] +
    Line(MoveLeft, Pause, MoveRight, "--") + [Lit(LowerArt)] +
    Line(MoveBackLeft, MoveBack, MoveBackRight, "  ")
  }

  /** The slots in `done` filled from `keys`; the others still placeholders. */
  function FillPiece(p: Piece, keys: MoveAction -> seq<char>, done: set<(MoveAction, SlotIndex)>): Piece
  {
    match p
    case Slot(a, i) => if (a, i) in done then Key(keys(a), i) else p
    case _ => p
  }

  function Fill(ps: seq<Piece>, keys: MoveAction -> seq<char>, done: set<(MoveAction, SlotIndex)>): seq<Piece>
  {
    if ps == [] then [] else [FillPiece(ps[0], keys, done)] + Fill(ps[1..], keys, done)
  }

  /** Every slot filled from `keys`. */
  function FillAll(ps: seq<Piece>, keys: MoveAction -> seq<char>): seq<Piece>
  {
    if ps == [] then []
    else
      var p := match ps[0]
        case Slot(a, i) => Key(keys(a), i)
        case _ => ps[0];
      [p] + FillAll(ps[1..], keys)
  }

  /** No `d>` with `d` a slot digit: no placeholder can end inside `t`. */
  predicate NoDigitClose(t: string)
  {
    forall j :: 0 <= j < |t| - 1 && t[j + 1] == '>' ==> t[j] != '0' && t[j] != '1'
  }

  /**
   * Text that holds no placeholder and cannot form one with what follows it:
   * either it has no `<`, or it ends in `>`.
   */
  predicate Inert(t: string)
  {
    NoDigitClose(t) && ('<' !in t || (|t| > 0 && t[|t| - 1] == '>'))
  }

  /** `<` opens and `>` closes `s`, and neither appears in between. */
  predicate Bracketed(s: string)
  {
    && |s| >= 2 && s[0] == '<' && s[|s| - 1] == '>'
    && forall j :: 0 < j < |s| - 1 ==> s[j] != '<' && s[j] != '>'
  }

  lemma SlotNameShape(a: MoveAction, i: SlotIndex)
    ensures Bracketed(SlotName(a, i))
    ensures |SlotName(a, i)| >= 3
    ensures SlotName(a, i)[|SlotName(a, i)| - 2] == Digit(i)
  {
    var id := ActionIdent(a);
    var s := SlotName(a, i);
    forall j | 0 < j < |s| - 1 ensures s[j] != '<' && s[j] != '>' {
      if j <= |id| {
        assert s[j] == id[j - 1];
      }
    }
  }

  /** Distinct slots have distinct placeholders. */
  lemma SlotNameInjective(a: MoveAction, i: SlotIndex, b: MoveAction, j: SlotIndex)
    requires SlotName(a, i) == SlotName(b, j)
    ensures a == b && i == j
  {
    var s := SlotName(a, i);
    assert ActionIdent(a) == s[1..|s| - 3] == ActionIdent(b);
    assert Digit(i) == s[|s| - 2] == Digit(j);
  }

  /** A bracketed word occurs in a bracketed text only as the whole text. */
  lemma BracketedOccurrence(w: string, s: string, k: nat)
    requires Bracketed(w) && Bracketed(s) && OccursAt(w, s, k)
    ensures s == w
  {
    assert s[k] == w[0];
    assert k == 0;
    assert s[|w| - 1] == w[|w| - 1];
  }

  /** A placeholder never occurs in text without a digit before a `>`. */
  lemma AbsentFromNoDigitClose(a: MoveAction, i: SlotIndex, t: string)
    requires NoDigitClose(t)
    ensures !Occurs(SlotName(a, i), t)
  {
    var w := SlotName(a, i);
    SlotNameShape(a, i);
    forall k: nat ensures !OccursAt(w, t, k) {
      if k + |w| <= |t| {
        assert t[k..k + |w|][|w| - 2] == t[k + |w| - 2];
        assert t[k..k + |w|][|w| - 1] == t[k + |w| - 1];
        assert t[k + |w| - 1] == '>' ==> t[k + |w| - 2] != Digit(i);
      }
    }
  }

  lemma SlotFillInert(keys: seq<char>, i: SlotIndex)
    ensures Inert(SlotFill(keys, i))
  {
    var t := SlotFill(keys, i);
    if i < |keys| {
      var pre := "<color_light_blue>";
      var post := "</color>";
      assert t == pre + [keys[i]] + post;
      forall j | 0 <= j < |t| - 1 && t[j + 1] == '>' ensures t[j] != '0' && t[j] != '1' {
        if j + 1 < |pre| {
          assert t[j + 1] == pre[j + 1];
        } else if j + 1 == |pre| {
          assert t[j] == pre[j];
        } else {
          assert t[j + 1] == post[j - |pre|];
          if j > |pre| {
            assert t[j] == post[j - |pre| - 1];
          }
        }
      }
    }
  }

  /** Literal text and replaced slots are inert. */
  lemma PieceInert(p: Piece)
    requires !p.Slot?
    ensures Inert(RenderPiece(p))
  {
    match p
    case Lit(t) => PlainInert(t);
    case Key(k, i) => SlotFillInert(k, i);
  }

  /** No placeholder straddles the end of a piece's rendering. */
  lemma PieceNoStraddle(p: Piece, a: MoveAction, i: SlotIndex, rest: string)
    ensures NoStraddle(SlotName(a, i), RenderPiece(p), rest)
  {
    var w := SlotName(a, i);
    SlotNameShape(a, i);
    var t := RenderPiece(p);
    if p.Slot? {
      SlotNameShape(p.action, p.index);
    } else {
      PieceInert(p);
    }
    if '<' !in t {
      StraddleFreeByFirst(w, t, rest);
    } else {
      assert |t| > 0 && t[|t| - 1] == '>';
      assert t[|t| - 1] !in w[..|w| - 1];
      StraddleFreeByLast(w, t, rest);
    }
  }

  /** One `replace_all` on one piece fills exactly that piece's slot, if it is the one replaced. */
  lemma PieceStep(p: Piece, keys: MoveAction -> seq<char>, done: set<(MoveAction, SlotIndex)>,
                  a: MoveAction, i: SlotIndex)
    ensures ReplaceAll(RenderPiece(FillPiece(p, keys, done)), SlotName(a, i), SlotFill(keys(a), i))
         == RenderPiece(FillPiece(p, keys, done + {(a, i)}))
  {
    var w := SlotName(a, i);
    var r := SlotFill(keys(a), i);
    SlotNameShape(a, i);
    match p
    case Lit(_) =>
      PieceInert(p);
      AbsentFromNoDigitClose(a, i, p.text);
      ReplaceAllAbsent(p.text, w, r);
    case Key(k, j) =>
      PieceInert(p);
      AbsentFromNoDigitClose(a, i, SlotFill(k, j));
      ReplaceAllAbsent(SlotFill(k, j), w, r);
    case Slot(b, j) =>
      if (b, j) in done {
        SlotFillInert(keys(b), j);
        AbsentFromNoDigitClose(a, i, SlotFill(keys(b), j));
        ReplaceAllAbsent(SlotFill(keys(b), j), w, r);
      } else if (b, j) == (a, i) {
        ReplaceAllWhole(w, r);
      } else {
        var s := SlotName(b, j);
        SlotNameShape(b, j);
        forall k: nat ensures !OccursAt(w, s, k) {
          if OccursAt(w, s, k) {
            BracketedOccurrence(w, s, k);
            SlotNameInjective(a, i, b, j);
          }
        }
        ReplaceAllAbsent(s, w, r);
      }
  }

  /**
   * One pass of the loop: replacing the placeholder of slot `(a, i)` in the
   * partly filled diagram fills that slot and changes nothing else.
   */
  lemma {:induction false} FillStep(ps: seq<Piece>, keys: MoveAction -> seq<char>,
                                    done: set<(MoveAction, SlotIndex)>, a: MoveAction, i: SlotIndex)
    ensures ReplaceAll(Render(Fill(ps, keys, done)), SlotName(a, i), SlotFill(keys(a), i))
         == Render(Fill(ps, keys, done + {(a, i)}))
  {
    if ps != [] {
      var w := SlotName(a, i);
      var r := SlotFill(keys(a), i);
      SlotNameShape(a, i);
      var head := RenderPiece(FillPiece(ps[0], keys, done));
      var tail := Render(Fill(ps[1..], keys, done));
      assert Fill(ps, keys, done)[1..] == Fill(ps[1..], keys, done);
      assert Render(Fill(ps, keys, done)) == head + tail;
      PieceNoStraddle(FillPiece(ps[0], keys, done), a, i, tail);
      ReplaceAllConcat(head, tail, w, r);
      FillStep(ps[1..], keys, done, a, i);
      PieceStep(ps[0], keys, done, a, i);
      assert Fill(ps, keys, done + {(a, i)})[1..] == Fill(ps[1..], keys, done + {(a, i)});
    }
  }

  /** Once every slot is done, the partial fill is the complete one. */
  lemma {:induction false} FillComplete(ps: seq<Piece>, keys: MoveAction -> seq<char>,
                                        done: set<(MoveAction, SlotIndex)>)
    requires forall a: MoveAction, i: SlotIndex :: (a, i) in done
    ensures Fill(ps, keys, done) == FillAll(ps, keys)
  {
    if ps != [] {
      FillComplete(ps[1..], keys, done);
    }
  }

  /** After every slot is filled, no placeholder is left in the diagram. */
  lemma {:induction false} NoPlaceholderLeft(ps: seq<Piece>, keys: MoveAction -> seq<char>,
                                             a: MoveAction, i: SlotIndex)
    ensures !Occurs(SlotName(a, i), Render(FillAll(ps, keys)))
  {
    var w := SlotName(a, i);
    if ps == [] {
      assert forall k: nat :: !OccursAt(w, [], k);
    } else {
      var f := FillAll(ps, keys);
      var head := RenderPiece(f[0]);
      var tail := Render(FillAll(ps[1..], keys));
      assert f[1..] == FillAll(ps[1..], keys);
      assert !f[0].Slot?;
      PieceInert(f[0]);
      NoPlaceholderLeft(ps[1..], keys, a, i);
      AbsentFromNoDigitClose(a, i, head);
      PieceNoStraddle(f[0], a, i, tail);
      AbsentFromConcat(w, head, tail);
    }
  }

  /** Text with neither `<` nor `>` is inert. */
  lemma PlainInert(t: string)
    requires '<' !in t && '>' !in t
    ensures Inert(t)
  {
    forall j | 0 <= j < |t| ensures t[j] != '>' {
      assert t[j] in t;
    }
  }

  /** With nothing done, filling changes nothing. */
  lemma {:induction false} FillNone(ps: seq<Piece>, keys: MoveAction -> seq<char>)
    ensures Fill(ps, keys, {}) == ps
  {
    if ps != [] {
      FillNone(ps[1..], keys);
    }
  }

  lemma MoveArrayCovers(a: MoveAction)
    ensures a in MoveArray
  {
  }

  /** Both slots of action `a` are filled. */
  predicate BothDone(done: set<(MoveAction, SlotIndex)>, a: MoveAction)
  {
    (a, 0) in done && (a, 1) in done
  }

  /** Once both slots of every action of `MoveArray` are done, the diagram is completely filled. */
  lemma FillCovered(ps: seq<Piece>, keys: MoveAction -> seq<char>, done: set<(MoveAction, SlotIndex)>)
    requires forall e :: 0 <= e < |MoveArray| ==> BothDone(done, MoveArray[e])
    ensures Fill(ps, keys, done) == FillAll(ps, keys)
  {
    forall a: MoveAction, i: SlotIndex ensures (a, i) in done {
      MoveArrayCovers(a);
    }
    FillComplete(ps, keys, done);
  }

  /**
   * The loop of `help::get_dir_grid`: for each action of `MoveArray` and each
   * of its two slots, `replace_all` the slot's placeholder by its key. Proved
   * for any template made of pieces, starting from its rendering.
   */
  method FillSlots(ghost ps: seq<Piece>, template: string, keysBoundTo: MoveAction -> seq<char>)
    returns (movement: string)
    requires template == Render(ps)
    ensures movement == Render(FillAll(ps, keysBoundTo))
  {
    movement := template;
    ghost var done: set<(MoveAction, SlotIndex)> := {};
    FillNone(ps, keysBoundTo);
    for d := 0 to |MoveArray|
      invariant movement == Render(Fill(ps, keysBoundTo, done))
      invariant forall e :: 0 <= e < d ==> BothDone(done, MoveArray[e])
    {
      var dir := MoveArray[d];
      var keys := keysBoundTo(dir);
      ghost var before := done;
      for i := 0 to 2
        invariant movement == Render(Fill(ps, keysBoundTo, done))
        invariant before <= done
        invariant i > 0 ==> (dir, 0) in done
        invariant i > 1 ==> (dir, 1) in done
      {
        var slot: SlotIndex := i;
        var what := SlotName(dir, slot);
        var with := SlotFill(keys, slot);
        FillStep(ps, keysBoundTo, done, dir, slot);
        movement := ReplaceAll(movement, what, with);
        done := done + {(dir, slot)};
      }
      forall e | 0 <= e < d + 1 ensures BothDone(done, MoveArray[e]) {
        if e < d {
          assert BothDone(before, MoveArray[e]);
        }
      }
    }
    FillCovered(ps, keysBoundTo, done);
  }

  /**
   * `help::get_dir_grid`: every placeholder `<IDENT_i>` of the diagram is
   * replaced by the i-th key bound to its action in light blue, or by a red
   * `?`, and no placeholder is left.
   */
  method GetDirGrid(keysBoundTo: MoveAction -> seq<char>) returns (movement: string)
    ensures movement == Render(FillAll(GridPieces(), keysBoundTo))
    ensures forall a: MoveAction, i: SlotIndex :: !Occurs(SlotName(a, i), movement)
  {
    movement := Render(GridPieces());
    movement := FillSlots(GridPieces(), movement, keysBoundTo);
    forall a: MoveAction, i: SlotIndex ensures !Occurs(SlotName(a, i), movement) {
      NoPlaceholderLeft(GridPieces(), keysBoundTo, a, i);
    }
  }
}
