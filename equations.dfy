/** Equation generation: one textual template per axis, with every `?`
    placeholder replaced, left to right, by a digit from 1 to 5. */
module Equations {
  import opened RandomDraw

  /** A vector field as two axis expressions in `x` and `y`. */
  datatype Equation = Equation(i: string, j: string)

  /** Size of the fixed template vocabulary. */
  const TemplateCount: nat := 10

  /** The fixed template vocabulary, in the order the game lists it. */
  function Template(k: nat): (t: string)
    requires k < TemplateCount
    ensures |t| > 0
  {
    match k
    case 0 => "?x^?"
    case 1 => "?y^?"
    case 2 => "?x^? + ?y^?"
    case 3 => "?x^? - ?y^?"
    case 4 => "cos(?x)^?"
    case 5 => "sin(?y)^?"
    case 6 => "?x^? + ?"
    case 7 => "?y^? + ?"
    case 8 => "cos(?x)^? + ?"
    case _ => "sin(?y)^? + ?"
  }

  const Placeholder: char := '?'

  /** Number of `?` placeholders in `s`. */
  function Placeholders(s: string): nat
  {
    if s == [] then 0
    else (if s[0] == Placeholder then 1 else 0) + Placeholders(s[1..])
  }

  predicate IsFillDigit(c: char) {
    '1' <= c <= '5'
  }

  /** The text of `Math.floor(r * 5) + 1`, a number from 1 to 5. */
  function DigitOf(r: real): (c: char)
    requires IsUnit(r)
    ensures IsFillDigit(c)
  {
    ('0' as int + Below(r, 5) + 1) as char
  }

  /** JavaScript's `s.replace(pat, rep)` with a one-character pattern: only
      the first occurrence of `pat` is rewritten. */
  function ReplaceFirst(s: string, pat: char, rep: char): (r: string)
    ensures |r| == |s|
    ensures pat !in s ==> r == s
  {
    if s == [] then []
    else if s[0] == pat then [rep] + s[1..]
    else [s[0]] + ReplaceFirst(s[1..], pat, rep)
  }

  /** When position `k` holds the first `pat`, replacing the first `pat`
      rewrites exactly position `k`. */
  lemma {:induction false} ReplaceFirstAt(s: string, pat: char, rep: char, k: nat)
    requires k < |s| && s[k] == pat
    requires forall j :: 0 <= j < k ==> s[j] != pat
    ensures ReplaceFirst(s, pat, rep) == s[k := rep]
  {
    if k == 0 {
      assert s[0 := rep] == [rep] + s[1..];
    } else {
      ReplaceFirstAt(s[1..], pat, rep, k - 1);
      assert s[k := rep] == [s[0]] + s[1..][k - 1 := rep];
    }
  }

  /** The intended result of filling `t`: the n-th `?` (counting from 0)
      becomes the digit of `draws[n]`, every other character stays. */
  function Substitute(t: string, draws: seq<real>): (r: string)
    requires AllUnit(draws) && |draws| >= Placeholders(t)
    ensures |r| == |t|
  {
    if t == [] then []
    else if t[0] == Placeholder then [DigitOf(draws[0])] + Substitute(t[1..], draws[1..])
    else [t[0]] + Substitute(t[1..], draws)
  }

  /** What filling promises: the length is kept, no `?` is left, every other
      character is unchanged and every former `?` holds a digit 1..5. */
  lemma {:induction false} SubstituteShape(t: string, draws: seq<real>)
    requires AllUnit(draws) && |draws| >= Placeholders(t)
    ensures |Substitute(t, draws)| == |t|
    ensures Placeholder !in Substitute(t, draws)
    ensures forall k :: 0 <= k < |t| && t[k] != Placeholder ==> Substitute(t, draws)[k] == t[k]
    ensures forall k :: 0 <= k < |t| && t[k] == Placeholder ==> IsFillDigit(Substitute(t, draws)[k])
  {
    if t != [] {
      var rest := if t[0] == Placeholder then draws[1..] else draws;
      SubstituteShape(t[1..], rest);
      var r := Substitute(t, draws);
      assert r[1..] == Substitute(t[1..], rest);
      forall k | 1 <= k < |t| ensures r[k] == Substitute(t[1..], rest)[k - 1] && t[k] == t[1..][k - 1] {
      }
    }
  }

  lemma {:induction false} PlaceholdersAppend(a: string, b: string)
    ensures Placeholders(a + b) == Placeholders(a) + Placeholders(b)
  {
    if a == [] {
      assert a + b == b;
    } else {
      assert (a + b)[1..] == a[1..] + b;
      PlaceholdersAppend(a[1..], b);
    }
  }

  /** `Substitute` position by position: position `k` of a `?` takes the
      draw numbered by the count of `?`s before it. */
  lemma {:induction false} SubstituteAt(t: string, draws: seq<real>, k: nat)
    requires AllUnit(draws) && |draws| >= Placeholders(t) && k < |t|
    ensures Placeholders(t[..k]) + Placeholders(t[k..]) == Placeholders(t)
    ensures t[k] == Placeholder ==> Placeholders(t[..k]) < |draws|
    ensures Substitute(t, draws)[k] ==
      if t[k] == Placeholder then DigitOf(draws[Placeholders(t[..k])]) else t[k]
  {
    assert t[..k] + t[k..] == t;
    PlaceholdersAppend(t[..k], t[k..]);
    assert t[k..] == [t[k]] + t[k + 1..];
    PlaceholdersAppend([t[k]], t[k + 1..]);
    assert [t[k]][1..] == [];
    if k > 0 {
      var rest := if t[0] == Placeholder then draws[1..] else draws;
      SubstituteAt(t[1..], rest, k - 1);
      assert t[1..][..k - 1] == t[..k][1..];
      assert t[1..][k - 1..] == t[k..];
    }
  }

  lemma PlaceholdersSplit(t: string, i: nat)
    requires i < |t|
    ensures Placeholders(t[..i + 1]) == Placeholders(t[..i]) + (if t[i] == Placeholder then 1 else 0)
    ensures Placeholders(t[..i + 1]) + Placeholders(t[i + 1..]) == Placeholders(t)
  {
    assert t[..i + 1] == t[..i] + [t[i]];
    PlaceholdersAppend(t[..i], [t[i]]);
    assert [t[i]][1..] == [];
    PlaceholdersAppend(t[..i + 1], t[i + 1..]);
    assert t[..i + 1] + t[i + 1..] == t;
  }

  /** One loop of `generateEquation`: scan `template` from the left and
      replace the first `?` by a fresh digit whenever the current character
      is `?`; `draws` supplies the draws in the order they are taken. */
  method FillPlaceholders(template: string, draws: seq<real>) returns (filled: string)
    requires AllUnit(draws) && |draws| >= Placeholders(template)
    ensures filled == Substitute(template, draws)
    ensures |filled| == |template|
    ensures Placeholder !in filled
    ensures forall k :: 0 <= k < |template| && template[k] != Placeholder ==> filled[k] == template[k]
    ensures forall k :: 0 <= k < |template| && template[k] == Placeholder ==> IsFillDigit(filled[k])
  {
    filled := template;
    var used := 0;
    SubstituteShape(template, draws);
    ghost var want := Substitute(template, draws);
    for i := 0 to |template|
      invariant used == Placeholders(template[..i])
      invariant |filled| == |template|
      invariant forall k :: 0 <= k < i ==> filled[k] == want[k]
      invariant forall k :: i <= k < |template| ==> filled[k] == template[k]
    {
      SubstituteAt(template, draws, i);
      PlaceholdersSplit(template, i);
      if filled[i] == Placeholder {
        var digit := DigitOf(draws[used]);
        ReplaceFirstAt(filled, Placeholder, digit, i);
        filled := ReplaceFirst(filled, Placeholder, digit);
        used := used + 1;
      }
    }
  }

  /** How many draws `generateEquation` takes for the two template picks in
      `draws[0]` and `draws[1]` and the placeholders of both templates. */
  function DrawsNeeded(draws: seq<real>): nat
    requires |draws| >= 2 && IsUnit(draws[0]) && IsUnit(draws[1])
  {
    2 + Placeholders(Template(Below(draws[0], TemplateCount)))
      + Placeholders(Template(Below(draws[1], TemplateCount)))
  }

  /** The two fills of `generateEquation`: `ti` takes the draws from the
      start of `draws`, `tj` the ones after those `ti` used. */
  method FillBoth(ti: string, tj: string, draws: seq<real>) returns (eq: Equation)
    requires AllUnit(draws) && |draws| >= Placeholders(ti) + Placeholders(tj)
    ensures eq.i == Substitute(ti, draws) && eq.j == Substitute(tj, draws[Placeholders(ti)..])
    ensures |eq.i| == |ti| && |eq.j| == |tj|
    ensures Placeholder !in eq.i && Placeholder !in eq.j
  {
    var equationI := FillPlaceholders(ti, draws);
    var equationJ := FillPlaceholders(tj, draws[Placeholders(ti)..]);
    eq := Equation(equationI, equationJ);
  }

  /** The equation `generateEquation` builds from `draws`: the `i` template
      filled from `draws[2..]`, then the `j` template from the draws after
      the ones `i` used. */
  function Generated(draws: seq<real>): Equation
    requires |draws| >= 2 && AllUnit(draws) && |draws| >= DrawsNeeded(draws)
  {
    var ti := Template(Below(draws[0], TemplateCount));
    var tj := Template(Below(draws[1], TemplateCount));
    Equation(Substitute(ti, draws[2..]), Substitute(tj, draws[2 + Placeholders(ti)..]))
  }

  /** `generateEquation`: the first two draws pick the templates for the two
      axes, the following ones fill the `i` template, then the `j` one. */
  method GenerateEquation(draws: seq<real>) returns (eq: Equation)
    requires |draws| >= 2 && AllUnit(draws) && |draws| >= DrawsNeeded(draws)
    ensures eq == Generated(draws)
    ensures eq.i != [] && eq.j != []
    ensures Placeholder !in eq.i && Placeholder !in eq.j
  {
    var indexI := Below(draws[0], TemplateCount);
    var indexJ := Below(draws[1], TemplateCount);
    var templateI := Template(indexI);
    var templateJ := Template(indexJ);
    eq := FillBoth(templateI, templateJ, draws[2..]);
    assert draws[2..][Placeholders(templateI)..] == draws[2 + Placeholders(templateI)..];
  }
}
