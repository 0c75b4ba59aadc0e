/**
 * The text `help::display_help` shows for a chosen topic: each line
 * translated and its `<press_` tokens expanded, then the lines joined with a
 * blank line between them (`std::accumulate` from the first line).
 */
module DetailText {
  import opened Strings
  import opened Externals
  import PressKeys

  const ParagraphBreak: string := "\n\n"

  /** The left fold `std::accumulate` performs, from `acc` over `rest`. */
  function Accumulate(acc: string, rest: seq<string>): string
    decreases |rest|
  {
    if rest == [] then acc else Accumulate(acc + ParagraphBreak + rest[0], rest[1..])
  }

  /** The paragraphs joined: the first, then a break and the next, and so on. */
  function JoinParagraphs(texts: seq<string>): string
    requires texts != []
  {
    Accumulate(texts[0], texts[1..])
  }

  /** Independent definition: each paragraph after the first brings its break with it. */
  function Separated(texts: seq<string>): string
    requires texts != []
  {
    if |texts| == 1 then texts[0] else texts[0] + ParagraphBreak + Separated(texts[1..])
  }

  /** Folding `rest` onto `acc` is `acc` followed by the paragraphs of `rest`, each after a break. */
  lemma {:induction false} AccumulateSeparated(acc: string, rest: seq<string>)
    ensures Accumulate(acc, rest) == Separated([acc] + rest)
    decreases |rest|
  {
    if rest != [] {
      AccumulateSeparated(acc + ParagraphBreak + rest[0], rest[1..]);
      AccumulateSeparated(rest[0], rest[1..]);
      assert ([rest[0]] + rest[1..]) == rest;
      SeparatedHead(acc, rest[0], rest[1..]);
    }
  }

  /** Gluing a paragraph in front of the first one of a list. */
  lemma {:induction false} SeparatedHead(a: string, b: string, rest: seq<string>)
    ensures Separated([a + ParagraphBreak + b] + rest) == a + ParagraphBreak + Separated([b] + rest)
  {
    if rest != [] {
      assert ([a + ParagraphBreak + b] + rest)[1..] == rest;
      assert ([b] + rest)[1..] == rest;
    }
  }

  /** The join agrees with the independent definition. */
  lemma JoinIsSeparated(texts: seq<string>)
    requires texts != []
    ensures JoinParagraphs(texts) == Separated(texts)
  {
    AccumulateSeparated(texts[0], texts[1..]);
    assert [texts[0]] + texts[1..] == texts;
  }

  /** Adding a paragraph at the end adds one break and that paragraph. */
  lemma {:induction false} JoinSnoc(texts: seq<string>, t: string)
    requires texts != []
    ensures JoinParagraphs(texts + [t]) == JoinParagraphs(texts) + ParagraphBreak + t
  {
    AccumulateSnoc(texts[0], texts[1..], t);
    assert (texts + [t])[1..] == texts[1..] + [t];
  }

  lemma {:induction false} AccumulateSnoc(acc: string, rest: seq<string>, t: string)
    ensures Accumulate(acc, rest + [t]) == Accumulate(acc, rest) + ParagraphBreak + t
    decreases |rest|
  {
    if rest != [] {
      assert (rest + [t])[1..] == rest[1..] + [t];
      AccumulateSnoc(acc + ParagraphBreak + rest[0], rest[1..], t);
    }
  }

  /** The length of the join: every paragraph, and one break between each two. */
  lemma {:induction false} JoinLength(texts: seq<string>)
    requires texts != []
    ensures |JoinParagraphs(texts)| == TotalLength(texts) + |ParagraphBreak| * (|texts| - 1)
  {
    var n := |texts| - 1;
    if n > 0 {
      assert texts == texts[..n] + [texts[n]];
      JoinSnoc(texts[..n], texts[n]);
      JoinLength(texts[..n]);
      TotalLengthSnoc(texts[..n], texts[n]);
    } else {
      assert texts[1..] == [];
    }
  }

  function TotalLength(texts: seq<string>): nat
  {
    if texts == [] then 0 else |texts[0]| + TotalLength(texts[1..])
  }

  lemma {:induction false} TotalLengthSnoc(texts: seq<string>, t: string)
    ensures TotalLength(texts + [t]) == TotalLength(texts) + |t|
  {
    if texts != [] {
      assert (texts + [t])[1..] == texts[1..] + [t];
      TotalLengthSnoc(texts[1..], t);
    }
  }

  /** Each line of a topic as displayed: translated, then its `<press_` tokens expanded. */
  function Expanded(env: Env, lines: seq<string>): (r: seq<string>)
    requires PressKeys.DescriptionsPlain(env.describeKeys)
    ensures |r| == |lines|
    ensures forall j :: 0 <= j < |lines| ==> r[j] == PressKeys.Expand(env.describeKeys, env.translate(lines[j]))
  {
    if lines == [] then []
    else [PressKeys.Expand(env.describeKeys, env.translate(lines[0]))] + Expanded(env, lines[1..])
  }

  /** Expanding one more line appends that line's expansion. */
  lemma ExpandedNext(env: Env, lines: seq<string>, k: nat)
    requires PressKeys.DescriptionsPlain(env.describeKeys)
    requires k < |lines|
    ensures Expanded(env, lines[..k + 1])
            == Expanded(env, lines[..k]) + [PressKeys.Expand(env.describeKeys, env.translate(lines[k]))]
  {
    var e := Expanded(env, lines[..k + 1]);
    var f := Expanded(env, lines[..k]) + [PressKeys.Expand(env.describeKeys, env.translate(lines[k]))];
    forall j | 0 <= j < k + 1 ensures e[j] == f[j] {
      assert lines[..k + 1][j] == lines[j];
      if j < k {
        assert lines[..k][j] == lines[j];
      }
    }
  }

  /** What choosing a topic with these lines shows: nothing for no lines, else the joined text. */
  function Page(env: Env, lines: seq<string>): Option<string>
    requires PressKeys.DescriptionsPlain(env.describeKeys)
  {
    if lines == [] then None else Some(JoinParagraphs(Expanded(env, lines)))
  }
}
