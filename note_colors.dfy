/**
 * `help::get_note_colors`: the legend shown for `<DRAW_NOTE_COLORS>`. It is the
 * translated title followed by one `id:label, ` entry per map-note colour,
 * the id drawn in its own colour and the label translated.
 */
module NoteColors {
  import opened Externals

  const Title: string := "Note colors: "
  const Separator: string := ", "

  /** The entry of one (colour id, label) pair. */
  function Entry(env: Env, pair: (string, string)): string
  {
    env.colorizeNote(pair.0) + ":" + env.translate(pair.1) + Separator
  }

  /** The entries of the pairs, in the order given. */
  function Entries(env: Env, pairs: seq<(string, string)>): string
  {
    if pairs == [] then "" else Entry(env, pairs[0]) + Entries(env, pairs[1..])
  }

  /** Appending a pair appends its entry. */
  lemma {:induction false} EntriesSnoc(env: Env, pairs: seq<(string, string)>, p: (string, string))
    ensures Entries(env, pairs + [p]) == Entries(env, pairs) + Entry(env, p)
  {
    if pairs != [] {
      assert (pairs + [p])[1..] == pairs[1..] + [p];
      EntriesSnoc(env, pairs[1..], p);
    }
  }

  /** The entries of a concatenation are the concatenation of the entries. */
  lemma {:induction false} EntriesAppend(env: Env, a: seq<(string, string)>, b: seq<(string, string)>)
    ensures Entries(env, a + b) == Entries(env, a) + Entries(env, b)
  {
    if a == [] {
      assert a + b == b;
    } else {
      assert (a + b)[1..] == a[1..] + b;
      EntriesAppend(env, a[1..], b);
    }
  }

  /** Every pair contributes exactly its own entry, between those of the pairs before and after it. */
  lemma EntriesSplit(env: Env, pairs: seq<(string, string)>, i: nat)
    requires i < |pairs|
    ensures Entries(env, pairs) == Entries(env, pairs[..i]) + Entry(env, pairs[i]) + Entries(env, pairs[i + 1..])
  {
    assert pairs == pairs[..i] + [pairs[i]] + pairs[i + 1..];
    EntriesAppend(env, pairs[..i] + [pairs[i]], pairs[i + 1..]);
    EntriesSnoc(env, pairs[..i], pairs[i]);
  }

  /** The entries are empty exactly when there are no pairs, and otherwise end in the separator. */
  lemma EntriesShape(env: Env, pairs: seq<(string, string)>)
    ensures Entries(env, pairs) == "" <==> pairs == []
    ensures pairs != [] ==> |Entries(env, pairs)| >= 2 &&
                            Entries(env, pairs)[|Entries(env, pairs)| - 2..] == Separator
  {
    if pairs != [] {
      var n := |pairs| - 1;
      assert pairs == pairs[..n] + [pairs[n]];
      EntriesSnoc(env, pairs[..n], pairs[n]);
    }
  }

  /**
   * `help::get_note_colors`: the translated title, then the entry of every
   * pair `get_note_color_names` yields, in its order.
   */
  method GetNoteColors(env: Env) returns (text: string)
    ensures text == env.translate(Title) + Entries(env, env.noteColorNames)
  {
    var names := env.noteColorNames;
    text := env.translate(Title);
    for i := 0 to |names|
      invariant text == env.translate(Title) + Entries(env, names[..i])
    {
      var colorPair := names[i];
      assert names[..i + 1] == names[..i] + [colorPair];
      EntriesSnoc(env, names[..i], colorPair);
      text := text + (env.colorizeNote(colorPair.0) + ":" + env.translate(colorPair.1) + ", ");
    }
    assert names[..|names|] == names;
  }
}
