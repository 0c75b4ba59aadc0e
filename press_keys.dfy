/**
 * The `<press_ACTION>` expansion `help::display_help` applies to every line of
 * a topic before showing it: each token names an input action and becomes
 * the keys bound to that action, in light blue.
 *
 * `ScanAsWritten` follows the loop as it is written, which resumes the search
 * at an index of the text as it was before the replacement; `Scan` resumes
 * at the index of the token just replaced, and is what the rest of the model
 * uses (see the findings in the README).
 */
module PressKeys {
  import opened Strings

  const Press: string := "<press_"

  /** The token naming `action`. */
  function Token(action: string): string
  {
    Press + action + ">"
  }

  /** What a token becomes: `press_x` of its action, in light blue. */
  function Replacement(describe: string -> string, action: string): string
  {
    "<color_light_blue>" + describe(action) + "</color>"
  }

  /** `press_x` never produces a `<press_` of its own, so expansion cannot feed itself. */
  ghost predicate DescriptionsPlain(describe: string -> string)
  {
    forall a :: !Occurs(Press, describe(a))
  }

  /** No `<press_` starts before index `n`. */
  predicate NoPressBefore(s: string, n: nat)
  {
    forall k: nat :: k < n ==> !OccursAt(Press, s, k)
  }

  /** Every `<press_` left in `s` is unclosed: no `>` follows it. */
  ghost predicate NoClosedToken(s: string)
  {
    forall k: nat :: OccursAt(Press, s, k) ==> Find(s, ">", k + |Press|).None?
  }

  /** An occurrence of a word is an occurrence of each of its prefixes. */
  lemma OccursAtPrefix(w: string, p: string, s: string, k: nat)
    requires |p| <= |w| && w[..|p|] == p && OccursAt(w, s, k)
    ensures OccursAt(p, s, k)
  {
    assert s[k..k + |p|] == s[k..k + |w|][..|p|];
  }

  /** `Find` returns the occurrence it is shown to be the first one. */
  lemma FindExact(s: string, w: string, from: nat, v: nat)
    requires from <= v && OccursAt(w, s, v)
    requires forall k: nat :: from <= k < v ==> !OccursAt(w, s, k)
    ensures Find(s, w, from) == Some(v)
  {
    assert Find(s, w, from).Some?;
  }

  /** A replacement holds no `<press_`, opens with `<` and closes with `>`. */
  lemma ReplacementShape(describe: string -> string, action: string)
    requires DescriptionsPlain(describe)
    ensures var r := Replacement(describe, action);
            |r| > 0 && r[0] == '<' && r[|r| - 1] == '>' && Count(Press, r) == 0
  {
    var open := "<color_light_blue>";
    var d := describe(action);
    var close := "</color>";
    assert Press[1..] == "press_";
    assert '<' !in Press[1..];
    forall k: nat ensures !OccursAt(Press, open, k) {
      if k + |Press| <= |open| {
        if k == 0 {
          assert open[k..k + |Press|][1] == 'c';
        } else {
          assert open[k..k + |Press|][0] == open[k];
          assert open[k] != '<';
        }
      }
    }
    forall k: nat ensures !OccursAt(Press, close, k) {
      if k + |Press| <= |close| {
        assert close[k..k + |Press|][1] == close[k + 1];
        if k == 0 {
          assert close[1] == '/';
        } else {
          assert close[k..k + |Press|][0] == close[k];
          assert close[k] != '<';
        }
      }
    }
    StraddleFreeByLast(Press, open, d);
    AbsentFromConcat(Press, open, d);
    StraddleFreeByNext(Press, open + d, close);
    AbsentFromConcat(Press, open + d, close);
    CountZero(Press, open + d + close);
  }

  /** A `<press_` at `pos` closed by the first `>` after it is a whole token there. */
  lemma TokenAt(s: string, pos: nat, pos2: nat)
    requires OccursAt(Press, s, pos) && Find(s, ">", pos) == Some(pos2)
    ensures pos + |Press| <= pos2 < |s|
    ensures OccursAt(Token(s[pos + |Press|..pos2]), s, pos)
  {
    forall j | pos <= j < pos + |Press| ensures !OccursAt(">", s, j) {
      assert s[j] == s[pos..pos + |Press|][j - pos];
      assert s[j..j + 1][0] == s[j];
    }
    assert s[pos2..pos2 + 1][0] == s[pos2];
    var t := Token(s[pos + |Press|..pos2]);
    assert s[pos..pos + |t|] == s[pos..pos + |Press|] + s[pos + |Press|..pos2] + s[pos2..pos2 + 1];
  }

  /** The step on a closed token removes at least that token's `<press_`. */
  lemma StepDecreases(describe: string -> string, s: string, pos: nat, action: string)
    requires DescriptionsPlain(describe)
    ensures Count(Press, ReplaceAll(s, Token(action), Replacement(describe, action))) <= Count(Press, s)
    ensures OccursAt(Token(action), s, pos) ==>
            Count(Press, ReplaceAll(s, Token(action), Replacement(describe, action))) < Count(Press, s)
  {
    var w := Token(action);
    ReplacementShape(describe, action);
    assert w[..|Press|] == Press;
    assert Press[1..] == "press_" && Press[..|Press| - 1] == "<press";
    CountAfterReplace(s, w, Replacement(describe, action), Press);
  }

  /** The text of an unclosed `<press_` plus `>` is nowhere in `s`. */
  lemma OpenTokenAbsent(s: string, pos: nat)
    requires OccursAt(Press, s, pos) && NoPressBefore(s, pos)
    ensures !Occurs(Token(s[pos + |Press|..]), s)
  {
    var w := Token(s[pos + |Press|..]);
    assert |w| == |s| - pos + 1;
    assert w[..|Press|] == Press;
    forall k: nat ensures !OccursAt(w, s, k) {
      if k + |w| <= |s| {
        assert !OccursAt(Press, s, k);
        assert s[k..k + |Press|] == s[k..k + |w|][..|Press|];
        assert s[k..k + |Press|] != Press;
      }
    }
  }

  /**
   * Replacing the token at `pos`, with no `<press_` before it, keeps the text
   * before `pos` and puts the replacement at `pos`.
   */
  lemma ReplaceAtFirst(describe: string -> string, s: string, pos: nat, action: string)
    requires NoPressBefore(s, pos) && OccursAt(Token(action), s, pos)
    ensures var t := ReplaceAll(s, Token(action), Replacement(describe, action));
            t == s[..pos] + Replacement(describe, action)
                 + ReplaceAll(s[pos + |Token(action)|..], Token(action), Replacement(describe, action))
  {
    var w := Token(action);
    var r := Replacement(describe, action);
    assert w[..|Press|] == Press;
    assert s[..pos] + s[pos..] == s;
    forall k: nat | k < pos ensures !OccursAt(w, s[..pos] + s[pos..], k) {
      if OccursAt(w, s, k) {
        OccursAtPrefix(w, Press, s, k);
      }
    }
    ReplaceAllKeepsPrefix(s[..pos], s[pos..], w, r);
    assert s[pos..][..|w|] == w;
    assert s[pos..][|w|..] == s[pos + |w|..];
  }

  /** Text that agrees with `s` before `pos` and has `<` at `pos` has no `<press_` before `pos` either. */
  lemma NoPressBeforeKept(s: string, t: string, pos: nat)
    requires NoPressBefore(s, pos) && pos <= |s| && pos < |t|
    requires t[..pos] == s[..pos] && t[pos] == '<'
    ensures NoPressBefore(t, pos)
  {
    assert Press[1..] == "press_";
    forall k: nat | k < pos ensures !OccursAt(Press, t, k) {
      if k + |Press| <= pos {
        assert !OccursAt(Press, s, k);
        assert t[k..k + |Press|] == t[..pos][k..k + |Press|];
        assert s[k..k + |Press|] == s[..pos][k..k + |Press|];
      } else if k + |Press| <= |t| {
        assert t[k..k + |Press|][pos - k] == t[pos];
        assert Press[pos - k] == Press[1..][pos - k - 1];
      }
    }
  }

  /** After the first token is replaced, there is still no `<press_` before it. */
  lemma ReplaceAtFirstKeepsFront(describe: string -> string, s: string, pos: nat, action: string)
    requires DescriptionsPlain(describe)
    requires NoPressBefore(s, pos) && OccursAt(Token(action), s, pos)
    ensures var t := ReplaceAll(s, Token(action), Replacement(describe, action));
            NoPressBefore(t, pos) && pos < |t| && t[..pos] == s[..pos]
  {
    var r := Replacement(describe, action);
    var t := ReplaceAll(s, Token(action), r);
    ReplaceAtFirst(describe, s, pos, action);
    ReplacementShape(describe, action);
    var rest := ReplaceAll(s[pos + |Token(action)|..], Token(action), r);
    assert t == s[..pos] + r + rest;
    assert t[..pos] == s[..pos];
    assert t[pos] == r[0];
    NoPressBeforeKept(s, t, pos);
  }

  /** The action named by the `<press_` at `pos`, when a `>` closes it. */
  function ClosedAction(s: string, pos: nat): (a: Option<string>)
    requires OccursAt(Press, s, pos)
    ensures a.Some? ==> '>' !in a.value && OccursAt(Token(a.value), s, pos)
  {
    match Find(s, ">", pos)
    case None => None
    case Some(pos2) =>
      TokenAt(s, pos, pos2);
      assert forall j :: pos + |Press| <= j < pos2 ==> s[j] != '>' by {
        forall j | pos + |Press| <= j < pos2 ensures s[j] != '>' {
          assert !OccursAt(">", s, j);
          assert s[j..j + 1][0] == s[j];
        }
      }
      Some(s[pos + |Press|..pos2])
  }

  /** Behind a replacement that starts at `pos`, no `<press_` starts before its end. */
  lemma ReplacementSettled(describe: string -> string, t: string, pos: nat, action: string)
    requires DescriptionsPlain(describe)
    requires var r := Replacement(describe, action);
             pos + |r| <= |t| && t[pos..pos + |r|] == r
    ensures forall k: nat :: pos <= k < pos + |Replacement(describe, action)| ==> !OccursAt(Press, t, k)
  {
    var r := Replacement(describe, action);
    ReplacementShape(describe, action);
    CountZero(Press, r);
    assert !Occurs(Press, r);
    assert '>' !in Press;
    forall k: nat | pos <= k < pos + |r| ensures !OccursAt(Press, t, k) {
      if k + |Press| <= pos + |r| {
        forall i | k <= i < k + |Press| ensures t[i] == r[i - pos] {
          assert t[pos..pos + |r|][i - pos] == t[i];
        }
        assert t[k..k + |Press|] == r[k - pos..k - pos + |Press|];
        assert !OccursAt(Press, r, k - pos);
      } else if k + |Press| <= |t| {
        assert t[pos + |r| - 1] == t[pos..pos + |r|][|r| - 1];
        assert t[k..k + |Press|][pos + |r| - 1 - k] == t[pos + |r| - 1];
      }
    }
  }

  /**
   * The corrected scan from a `<press_` at `pos`, none before it: the token
   * is replaced everywhere and the search resumes at `pos`. No closed token
   * survives, and a closed token at `pos` leaves its replacement there.
   */
  function Scan(describe: string -> string, s: string, pos: nat): (r: string)
    requires DescriptionsPlain(describe)
    requires OccursAt(Press, s, pos) && NoPressBefore(s, pos)
    ensures NoClosedToken(r)
    ensures pos <= |r| && r[..pos] == s[..pos]
    decreases Count(Press, s)
  {
    match Find(s, ">", pos)
    case None =>
      OpenTokenAbsent(s, pos);
      ReplaceAllAbsent(s, Token(s[pos + |Press|..]), Replacement(describe, s[pos + |Press|..]));
      ReplaceAll(s, Token(s[pos + |Press|..]), Replacement(describe, s[pos + |Press|..]))
    case Some(pos2) =>
      TokenAt(s, pos, pos2);
      var action := s[pos + |Press|..pos2];
      var t := ReplaceAll(s, Token(action), Replacement(describe, action));
      StepDecreases(describe, s, pos, action);
      ReplaceAtFirstKeepsFront(describe, s, pos, action);
      match Find(t, Press, pos)
      case None => t
      case Some(next) =>
        var r := Scan(describe, t, next);
        assert r[..pos] == r[..next][..pos];
        r
  }

  /** A closed token at `pos` leaves its replacement at `pos` in the scan's result. */
  lemma ScanPlacesReplacement(describe: string -> string, s: string, pos: nat)
    requires DescriptionsPlain(describe)
    requires OccursAt(Press, s, pos) && NoPressBefore(s, pos)
    ensures ClosedAction(s, pos).Some? ==>
              var rep := Replacement(describe, ClosedAction(s, pos).value);
              var r := Scan(describe, s, pos);
              pos + |rep| <= |r| && r[pos..pos + |rep|] == rep
  {
    match Find(s, ">", pos)
    case None =>
    case Some(pos2) =>
      TokenAt(s, pos, pos2);
      var action := s[pos + |Press|..pos2];
      var rep := Replacement(describe, action);
      var t := ReplaceAll(s, Token(action), rep);
      ReplacementPlaced(describe, s, pos, action);
      assert ClosedAction(s, pos) == Some(action);
      match Find(t, Press, pos)
      case None =>
        assert Scan(describe, s, pos) == t;
      case Some(next) =>
        ReplacementSettled(describe, t, pos, action);
        ScanKeepsBefore(describe, t, next, pos, rep);
        assert Scan(describe, s, pos) == Scan(describe, t, next);
  }

  /** Replacing the first token puts its replacement at `pos`, still with no `<press_` before it. */
  lemma ReplacementPlaced(describe: string -> string, s: string, pos: nat, action: string)
    requires DescriptionsPlain(describe)
    requires NoPressBefore(s, pos) && OccursAt(Token(action), s, pos)
    ensures var rep := Replacement(describe, action);
            var t := ReplaceAll(s, Token(action), rep);
            pos + |rep| <= |t| && t[pos..pos + |rep|] == rep && NoPressBefore(t, pos)
  {
    var rep := Replacement(describe, action);
    ReplaceAtFirst(describe, s, pos, action);
    ReplaceAtFirstKeepsFront(describe, s, pos, action);
  }

  /** The scan from `next` keeps any text that ends before `next`. */
  lemma ScanKeepsBefore(describe: string -> string, t: string, next: nat, pos: nat, rep: string)
    requires DescriptionsPlain(describe)
    requires OccursAt(Press, t, next) && NoPressBefore(t, next)
    requires pos + |rep| <= next && t[pos..pos + |rep|] == rep
    ensures var r := Scan(describe, t, next);
            pos + |rep| <= |r| && r[pos..pos + |rep|] == rep
  {
    var r := Scan(describe, t, next);
    assert r[pos..pos + |rep|] == r[..next][pos..pos + |rep|];
    assert t[pos..pos + |rep|] == t[..next][pos..pos + |rep|];
  }

  /** The scan as written, resuming the search at `pos2`, an index into the text before the replacement. */
  function ScanAsWritten(describe: string -> string, s: string, pos: nat): (r: string)
    requires DescriptionsPlain(describe)
    requires OccursAt(Press, s, pos)
    ensures Count(Press, r) <= Count(Press, s)
    decreases Count(Press, s)
  {
    match Find(s, ">", pos)
    case None =>
      StepDecreases(describe, s, pos, s[pos + |Press|..]);
      ReplaceAll(s, Token(s[pos + |Press|..]), Replacement(describe, s[pos + |Press|..]))
    case Some(pos2) =>
      TokenAt(s, pos, pos2);
      var action := s[pos + |Press|..pos2];
      var t := ReplaceAll(s, Token(action), Replacement(describe, action));
      StepDecreases(describe, s, pos, action);
      match Find(t, Press, pos2)
      case None => t
      case Some(next) => ScanAsWritten(describe, t, next)
  }

  /** A translated line with its `<press_` tokens expanded. */
  function Expand(describe: string -> string, line: string): (r: string)
    requires DescriptionsPlain(describe)
    ensures NoClosedToken(r)
    ensures !Occurs(Press, line) ==> r == line
    ensures Find(line, Press, 0).Some? ==> var first := Find(line, Press, 0).value;
                                           first <= |r| && r[..first] == line[..first]
  {
    match Find(line, Press, 0)
    case None => line
    case Some(pos) => Scan(describe, line, pos)
  }

  /** A `<press_` with no `>` after it leaves the line as it is. */
  lemma ExpandUnclosed(describe: string -> string, line: string)
    requires DescriptionsPlain(describe)
    requires Find(line, Press, 0).Some? && Find(line, ">", Find(line, Press, 0).value).None?
    ensures Expand(describe, line) == line
  {
    var pos := Find(line, Press, 0).value;
    ExpandAtFirst(describe, line, pos);
    var action := line[pos + |Press|..];
    OpenTokenAbsent(line, pos);
    ReplaceAllAbsent(line, Token(action), Replacement(describe, action));
  }

  /** A line that is one whole token becomes that token's replacement. */
  lemma ExpandWholeToken(describe: string -> string, action: string)
    requires DescriptionsPlain(describe) && '>' !in action
    ensures Expand(describe, Token(action)) == Replacement(describe, action)
  {
    var s := Token(action);
    var n := |Press| + |action|;
    assert s[..|Press|] == Press;
    FindExact(s, Press, 0, 0);
    forall k: nat | 0 <= k < n ensures !OccursAt(">", s, k) {
      assert s[k..k + 1][0] == s[k];
      if k < |Press| {
        assert s[k] == Press[k];
      } else {
        assert s[k] == action[k - |Press|];
        assert action[k - |Press|] in action;
      }
    }
    assert s[n..n + 1] == ">";
    FindExact(s, ">", 0, n);
    assert s[|Press|..n] == action;
    ReplaceAllWhole(s, Replacement(describe, action));
    ReplacementShape(describe, action);
    CountZero(Press, Replacement(describe, action));
  }

  /** The first `<press_` of text without one, then a token, is the token's. */
  lemma FirstPressAt(u: string, action: string, v: string)
    requires !Occurs(Press, u)
    ensures Find(u + Token(action) + v, Press, 0) == Some(|u|)
  {
    var line := u + Token(action) + v;
    var w := Token(action);
    var pos := |u|;
    assert line[pos..pos + |w|] == w;
    assert w[..|Press|] == Press;
    OccursAtPrefix(w, Press, line, pos);
    assert Press[1..] == "press_";
    forall k: nat | k < pos ensures !OccursAt(Press, line, k) {
      if k + |Press| <= pos {
        assert line[k..k + |Press|] == u[k..k + |Press|];
        assert !OccursAt(Press, u, k);
      } else if k + |Press| <= |line| {
        assert line[k..k + |Press|][pos - k] == line[pos] == '<';
        assert Press[pos - k] == Press[1..][pos - k - 1];
      }
    }
    FindExact(line, Press, 0, pos);
  }

  /** A token whose action has no `>` is closed by its own `>`. */
  lemma TokenCloses(u: string, action: string, v: string)
    requires '>' !in action
    ensures var pos2 := |u| + |Press| + |action|;
            Find(u + Token(action) + v, ">", |u|) == Some(pos2)
            && (u + Token(action) + v)[|u| + |Press|..pos2] == action
  {
    var line := u + Token(action) + v;
    var w := Token(action);
    var pos := |u|;
    var pos2 := pos + |Press| + |action|;
    forall k: nat | pos <= k < pos2 ensures !OccursAt(">", line, k) {
      assert line[k..k + 1][0] == line[k] == w[k - pos];
      if k - pos < |Press| {
        assert w[k - pos] == Press[k - pos];
      } else {
        assert w[k - pos] == action[k - pos - |Press|];
        assert action[k - pos - |Press|] in action;
      }
    }
    assert line[pos2..pos2 + 1] == ">";
    FindExact(line, ">", pos, pos2);
  }

  /** Replacing the token between texts without `<press_` replaces just that one copy. */
  lemma ReplaceOneToken(describe: string -> string, u: string, action: string, v: string)
    requires !Occurs(Press, u) && !Occurs(Press, v)
    ensures ReplaceAll(u + Token(action) + v, Token(action), Replacement(describe, action))
            == u + Replacement(describe, action) + v
  {
    var line := u + Token(action) + v;
    var w := Token(action);
    var r := Replacement(describe, action);
    var pos := |u|;
    FirstPressAt(u, action, v);
    assert line[pos..pos + |w|] == w;
    ReplaceAtFirst(describe, line, pos, action);
    assert line[..pos] == u && line[pos + |w|..] == v;
    assert w[..|Press|] == Press;
    forall k: nat ensures !OccursAt(w, v, k) {
      if OccursAt(w, v, k) {
        OccursAtPrefix(w, Press, v, k);
      }
    }
    ReplaceAllAbsent(v, w, r);
  }

  /** Texts without `<press_` around a replacement hold no `<press_`. */
  lemma ReplacedPlain(describe: string -> string, u: string, action: string, v: string)
    requires DescriptionsPlain(describe)
    requires !Occurs(Press, u) && !Occurs(Press, v)
    ensures !Occurs(Press, u + Replacement(describe, action) + v)
  {
    var r := Replacement(describe, action);
    ReplacementShape(describe, action);
    CountZero(Press, r);
    assert Press[1..] == "press_";
    StraddleFreeByNext(Press, u, r);
    AbsentFromConcat(Press, u, r);
    StraddleFreeByLast(Press, u + r, v);
    AbsentFromConcat(Press, u + r, v);
  }

  /**
   * What a closed token becomes. A line made of text without `<press_`, the
   * token of `action`, and more text without `<press_` expands to the same
   * texts around the action's keys.
   */
  lemma ExpandOneToken(describe: string -> string, u: string, action: string, v: string)
    requires DescriptionsPlain(describe)
    requires !Occurs(Press, u) && !Occurs(Press, v) && '>' !in action
    ensures Expand(describe, u + Token(action) + v) == u + Replacement(describe, action) + v
  {
    var line := u + Token(action) + v;
    var out := u + Replacement(describe, action) + v;
    FirstPressAt(u, action, v);
    TokenCloses(u, action, v);
    ReplaceOneToken(describe, u, action, v);
    ReplacedPlain(describe, u, action, v);
    assert Find(out, Press, |u|) == None;
    ExpandSingleStep(describe, line, |u|, |u| + |Press| + |action|, action, out);
  }

  /** A line whose first token is closed, with no `<press_` after its replacement, expands in one step. */
  lemma ExpandSingleStep(describe: string -> string, line: string, pos: nat, pos2: nat, action: string, out: string)
    requires DescriptionsPlain(describe) && Find(line, Press, 0) == Some(pos)
    requires Find(line, ">", pos) == Some(pos2) && pos + |Press| <= pos2 <= |line|
    requires line[pos + |Press|..pos2] == action
    requires ReplaceAll(line, Token(action), Replacement(describe, action)) == out
    requires Find(out, Press, pos) == None
    ensures Expand(describe, line) == out
  {
    ExpandAtFirst(describe, line, pos);
    ScanLastStep(describe, line, pos, pos2, action);
  }

  /** `Expand` of a line is the scan from its first `<press_`. */
  lemma ExpandAtFirst(describe: string -> string, line: string, pos: nat)
    requires DescriptionsPlain(describe) && Find(line, Press, 0) == Some(pos)
    ensures OccursAt(Press, line, pos) && NoPressBefore(line, pos)
    ensures Expand(describe, line) == Scan(describe, line, pos)
  {
  }

  /** The scan ends after one step when no `<press_` follows the replaced token. */
  lemma ScanLastStep(describe: string -> string, s: string, pos: nat, pos2: nat, action: string)
    requires DescriptionsPlain(describe) && OccursAt(Press, s, pos) && NoPressBefore(s, pos)
    requires Find(s, ">", pos) == Some(pos2) && pos + |Press| <= pos2 <= |s|
    requires s[pos + |Press|..pos2] == action
    requires Find(ReplaceAll(s, Token(action), Replacement(describe, action)), Press, pos) == None
    ensures Scan(describe, s, pos) == ReplaceAll(s, Token(action), Replacement(describe, action))
  {
  }

  /**
   * Two tokens in a row, the second shorter than the first, both become
   * their keys: after the first is replaced, the search resumes at the
   * replacement and finds the second.
   */
  lemma ExpandTwoTokens(describe: string -> string, a: string, b: string)
    requires DescriptionsPlain(describe)
    requires '>' !in a && '>' !in b && |b| < |a|
    ensures Expand(describe, Token(a) + Token(b)) == Replacement(describe, a) + Replacement(describe, b)
  {
    var line := Token(a) + Token(b);
    var r := Replacement(describe, a);
    assert !Occurs(Press, "") by {
      assert forall k: nat :: !OccursAt(Press, "", k);
    }
    assert "" + Token(a) + Token(b) == line;
    FirstPressAt("", a, Token(b));
    TokenCloses("", a, Token(b));
    assert line[..|Token(a)|] == Token(a) && line[|Token(a)|..] == Token(b);
    assert ReplaceAll(line, Token(a), r) == r + Token(b);
    ReplacementShape(describe, a);
    CountZero(Press, r);
    ExpandOneToken(describe, r, b, "");
    assert r + Token(b) + "" == r + Token(b);
  }

  /** The expansion as written. */
  function ExpandAsWritten(describe: string -> string, line: string): (r: string)
    requires DescriptionsPlain(describe)
    ensures Count(Press, r) <= Count(Press, line)
    ensures !Occurs(Press, line) ==> r == line
  {
    match Find(line, Press, 0)
    case None => line
    case Some(pos) => ScanAsWritten(describe, line, pos)
  }

  /**
   * The expansion as written can leave a closed token behind: when a token
   * is longer than its replacement, the resumed search starts past the next
   * token. Here the first token's keys read `x`, its replacement is four
   * characters shorter than it, and the second token survives; the corrected
   * expansion replaces both.
   */
  lemma AsWrittenSkipsToken(describe: string -> string)
    requires DescriptionsPlain(describe) && describe("toggle_auto_travel_mode") == "x"
    ensures var line := Token("toggle_auto_travel_mode") + Token("b");
            && ExpandAsWritten(describe, line)
               == Replacement(describe, "toggle_auto_travel_mode") + Token("b")
            && !NoClosedToken(ExpandAsWritten(describe, line))
            && NoClosedToken(Expand(describe, line))
            && Expand(describe, line)
               == Replacement(describe, "toggle_auto_travel_mode") + Replacement(describe, "b")
  {
    var a := "toggle_auto_travel_mode";
    assert '>' !in a;
    ExpandAsWrittenStep(describe, Token(a) + Token("b"), a);
    ClosedTokenLeft(Replacement(describe, a));
    ExpandTwoTokens(describe, a, "b");
  }

  /** Text ending in the token of `b` has a closed token. */
  lemma ClosedTokenLeft(r: string)
    ensures !NoClosedToken(r + Token("b"))
  {
    var t := r + Token("b");
    var n := |r|;
    assert t[n..n + |Press|] == Press;
    assert t[n + |Press|] == 'b' && t[n + |Press| + 1] == '>';
    assert !OccursAt(">", t, n + |Press|) by {
      assert t[n + |Press|..n + |Press| + 1][0] == t[n + |Press|];
    }
    assert t[n + |Press| + 1..n + |Press| + 2] == ">";
    FindExact(t, ">", n + |Press|, n + |Press| + 1);
    assert OccursAt(Press, t, n) && Find(t, ">", n + |Press|).Some?;
  }

  /** The constant description `x` never holds a `<press_`, so the counterexample has an instance. */
  lemma ConstantDescriptionPlain()
    ensures var d := (a: string) => "x";
            DescriptionsPlain(d) && d("toggle_auto_travel_mode") == "x"
  {
    var d := (a: string) => "x";
    forall x ensures !Occurs(Press, d(x)) {
      assert forall k: nat :: !OccursAt(Press, "x", k);
    }
  }

  /** The first and only step of the scan in the counterexample. */
  lemma ExpandAsWrittenStep(describe: string -> string, line: string, a: string)
    requires DescriptionsPlain(describe)
    requires line == Token(a) + Token("b")
    requires describe(a) == "x" && |a| == 23 && '>' !in a
    ensures ExpandAsWritten(describe, line) == Replacement(describe, a) + Token("b")
  {
    var pos2 := |Press| + |a|;
    assert line[..|Press|] == Press;
    FindExact(line, Press, 0, 0);
    forall k: nat | 0 <= k < pos2 ensures !OccursAt(">", line, k) {
      assert line[k..k + 1][0] == line[k];
      if k < |Press| {
        assert line[k] == Press[k];
      } else {
        assert line[k] == a[k - |Press|];
        assert a[k - |Press|] in a;
      }
    }
    assert line[pos2..pos2 + 1] == ">";
    FindExact(line, ">", 0, pos2);
    assert line[|Press|..pos2] == a;
    var w := Token(a);
    var r := Replacement(describe, a);
    assert line[..|w|] == w;
    assert line[|w|..] == Token("b");
    assert ReplaceAll(Token("b"), w, r) == Token("b");
    assert ReplaceAll(line, w, r) == r + Token("b");
  }

  /**
   * The expansion loop of `help::display_help`, with the search resumed at
   * the replaced token: find a `<press_`, take the action up to the next `>`,
   * replace every copy of that token by the action's keys, and search again.
   */
  method ExpandPressKeys(describe: string -> string, line: string) returns (lineProc: string)
    requires DescriptionsPlain(describe)
    ensures lineProc == Expand(describe, line)
    ensures NoClosedToken(lineProc)
  {
    lineProc := line;
    var pos := Find(lineProc, Press, 0);
    while pos.Some?
      invariant pos.Some? ==> OccursAt(Press, lineProc, pos.value) && NoPressBefore(lineProc, pos.value)
      invariant Expand(describe, line) == if pos.Some? then Scan(describe, lineProc, pos.value) else lineProc
      decreases Count(Press, lineProc), if pos.Some? then 1 else 0
    {
      var p := pos.value;
      ghost var before := lineProc;
      var pos2 := Find(lineProc, ">", p);
      // `substr` stops at the end of the text when no `>` follows
      var action := if pos2.Some? then (TokenAt(lineProc, p, pos2.value); lineProc[p + |Press|..pos2.value])
                     else lineProc[p + |Press|..];
      var replace := Replacement(describe, action);
      StepDecreases(describe, lineProc, p, action);
      if pos2.Some? {
        ReplaceAtFirstKeepsFront(describe, lineProc, p, action);
      } else {
        OpenTokenAbsent(lineProc, p);
        ReplaceAllAbsent(lineProc, Token(action), replace);
      }
      if |replace| == 0 {
        // `replace` always holds the colour tags, so the unknown-action message is never reached
        assert false;
      } else {
        lineProc := ReplaceAll(lineProc, Token(action), replace);
      }
      // a search from `npos` finds nothing
      pos := if pos2.Some? then Find(lineProc, Press, p) else None;
      assert Scan(describe, before, p) == if pos.Some? then Scan(describe, lineProc, pos.value) else lineProc;
    }
  }
}
