/** Expansion of `{name}` placeholders in a configured script. */
module Template {
  import opened Strings

  /** A script seen as text with holes. */
  datatype Part = Text(text: string) | Hole(name: string)

  function Placeholder(name: string): string {
    "{" + name + "}"
  }

  function RenderPart(p: Part): string {
    match p
    case Text(text) => text
    case Hole(name) => Placeholder(name)
  }

  function Render(parts: seq<Part>): string {
    if parts == [] then "" else RenderPart(parts[0]) + Render(parts[1..])
  }

  predicate BraceFree(s: string) {
    '{' !in s && '}' !in s
  }

  /** Text opens no brace, and names contain none. */
  predicate WellFormed(parts: seq<Part>) {
    forall i :: 0 <= i < |parts| ==> WellFormedPart(parts[i])
  }

  predicate WellFormedPart(p: Part) {
    match p
    case Text(text) => '{' !in text
    case Hole(name) => BraceFree(name)
  }

  /** The listed names that have a value contain no braces. */
  predicate Named(names: seq<string>, dat: map<string, string>) {
    forall n :: n in names && n in dat ==> BraceFree(n)
  }

  /** No brace in the text starts the placeholder of `n`, whatever may come after the text. */
  predicate Inert(text: string, n: string) {
    forall k :: 0 <= k < |text| && text[k] == '{' ==> !(text[k..] <= Placeholder(n)) && !(Placeholder(n) <= text[k..])
  }

  /** Replacing the placeholder of `n` changes it. */
  predicate Active(n: string, dat: map<string, string>) {
    n in dat && dat[n] != Placeholder(n)
  }

  /** No value that may be filled in can open the placeholder of a listed name. */
  predicate Harmless(names: seq<string>, dat: map<string, string>) {
    forall a, n :: a in names && a in dat && n in names && Active(n, dat) ==> Inert(dat[a], n)
  }

  /** All holes filled at once. */
  function Fill(parts: seq<Part>, names: set<string>, dat: map<string, string>): seq<Part> {
    seq(|parts|, i requires 0 <= i < |parts| =>
      if parts[i].Hole? && parts[i].name in names && parts[i].name in dat
      then Text(dat[parts[i].name]) else parts[i])
  }

  /** The sequential replacement loop: one pass over the script for every listed name with a value. */
  function ExpandAll(script: string, names: seq<string>, dat: map<string, string>): string {
    if names == [] then script
    else
      var prm := names[|names| - 1];
      var done := ExpandAll(script, names[..|names| - 1], dat);
      if prm in dat then ReplaceAll(done, Placeholder(prm), dat[prm]) else done
  }

  method Expand(script: string, names: seq<string>, dat: map<string, string>) returns (r: string)
    ensures r == ExpandAll(script, names, dat)
  {
    r := script;
    for i := 0 to |names|
      invariant r == ExpandAll(script, names[..i], dat)
    {
      assert names[..i + 1][..i] == names[..i];
      if names[i] in dat {
        r := ReplaceAll(r, Placeholder(names[i]), dat[names[i]]);
      }
    }
    assert names[..|names|] == names;
  }

  // ---------------------------------------------------------------------------------------------
  // One replacement on a template

  /** Inert text is copied. */
  lemma {:induction false} ReplaceSkipsText(text: string, rest: string, name: string, v: string)
    requires Inert(text, name)
    ensures ReplaceAll(text + rest, Placeholder(name), v) == text + ReplaceAll(rest, Placeholder(name), v)
  {
    if text == "" {
      assert text + rest == rest;
    } else {
      InertTail(text, name);
      NoMatchHere(text, rest, name);
      ReplaceSkipsText(text[1..], rest, name, v);
      CopyFirst(text, rest, Placeholder(name), v);
      Associates(text, ReplaceAll(rest, Placeholder(name), v));
    }
  }

  lemma CopyFirst(text: string, rest: string, p: string, v: string)
    requires text != "" && p != "" && !(p <= text + rest)
    ensures ReplaceAll(text + rest, p, v) == [text[0]] + ReplaceAll(text[1..] + rest, p, v)
  {
    assert (text + rest)[1..] == text[1..] + rest;
  }

  lemma Associates(text: string, tail: string)
    requires text != ""
    ensures [text[0]] + (text[1..] + tail) == text + tail
  {
  }

  lemma InertTail(text: string, name: string)
    requires text != "" && Inert(text, name)
    ensures Inert(text[1..], name)
  {
    forall k | 0 <= k < |text| - 1
      ensures text[1..][k..] == text[k + 1..]
    {
    }
  }

  lemma PrefixOfConcat(p: string, a: string, b: string)
    ensures p <= a + b ==> p <= a || a <= p
  {
    if p <= a + b {
      if |p| <= |a| {
        assert p == (a + b)[..|p|] == a[..|p|];
      } else {
        assert a == (a + b)[..|a|] == p[..|a|];
      }
    }
  }

  lemma NoMatchHere(text: string, rest: string, name: string)
    requires text != "" && Inert(text, name)
    ensures !(Placeholder(name) <= text + rest)
  {
    PrefixOfConcat(Placeholder(name), text, rest);
    assert Placeholder(name)[0] == '{' && text[0..] == text && (text + rest)[0] == text[0];
  }

  lemma ReplaceFillsHole(rest: string, name: string, v: string)
    ensures ReplaceAll(Placeholder(name) + rest, Placeholder(name), v) == v + ReplaceAll(rest, Placeholder(name), v)
  {
    assert (Placeholder(name) + rest)[|Placeholder(name)|..] == rest;
  }

  /** Two placeholders with brace-free names match at the same place only if they are the same. */
  lemma PlaceholderPrefix(name: string, other: string, rest: string)
    requires BraceFree(name) && BraceFree(other)
    requires Placeholder(name) <= Placeholder(other) + rest
    ensures name == other
  {
    var s := Placeholder(other) + rest;
    assert s[|other| + 1] == '}' && s[|name| + 1] == '}';
    assert name == s[1..|name| + 1] == other;
  }

  lemma ReplaceSkipsOtherHole(other: string, rest: string, name: string, v: string)
    requires BraceFree(name) && BraceFree(other) && name != other
    ensures ReplaceAll(Placeholder(other) + rest, Placeholder(name), v)
            == Placeholder(other) + ReplaceAll(rest, Placeholder(name), v)
  {
    if Placeholder(name) <= Placeholder(other) + rest {
      PlaceholderPrefix(name, other, rest);
    }
    var s := Placeholder(other) + rest;
    assert s[1..] == (other + "}") + rest;
    ReplaceSkipsText(other + "}", rest, name, v);
  }

  /** Replacing something by itself changes nothing. */
  lemma {:induction false} ReplaceBySelf(s: string, p: string)
    requires p != ""
    ensures ReplaceAll(s, p, p) == s
  {
    if s != "" {
      if p <= s {
        ReplaceBySelf(s[|p|..], p);
      } else {
        ReplaceBySelf(s[1..], p);
      }
    }
  }

  /** Every text is inert for `name`, and every hole has a name without braces. */
  predicate Calm(parts: seq<Part>, name: string) {
    forall i :: 0 <= i < |parts| ==> CalmPart(parts[i], name)
  }

  predicate CalmPart(p: Part, name: string) {
    match p
    case Text(text) => Inert(text, name)
    case Hole(n) => BraceFree(n)
  }

  lemma PassOverPart(p: Part, rest: string, name: string, dat: map<string, string>)
    requires CalmPart(p, name) && BraceFree(name) && name in dat
    ensures ReplaceAll(RenderPart(p) + rest, Placeholder(name), dat[name])
            == (if p == Hole(name) then dat[name] else RenderPart(p)) + ReplaceAll(rest, Placeholder(name), dat[name])
  {
    match p
    case Text(text) => ReplaceSkipsText(text, rest, name, dat[name]);
    case Hole(n) =>
      if n == name {
        ReplaceFillsHole(rest, name, dat[name]);
      } else {
        ReplaceSkipsOtherHole(n, rest, name, dat[name]);
      }
  }

  /** One pass replaces exactly the holes of that name. */
  lemma {:induction false} ReplaceIsFill(parts: seq<Part>, name: string, dat: map<string, string>)
    requires Calm(parts, name) && BraceFree(name) && name in dat
    ensures ReplaceAll(Render(parts), Placeholder(name), dat[name]) == Render(Fill(parts, {name}, dat))
  {
    if parts != [] {
      ReplaceIsFill(parts[1..], name, dat);
      PassOverPart(parts[0], Render(parts[1..]), name, dat);
      FillFirst(parts, name, dat);
    }
  }

  lemma FillFirst(parts: seq<Part>, name: string, dat: map<string, string>)
    requires parts != [] && name in dat
    ensures Render(Fill(parts, {name}, dat))
            == (if parts[0] == Hole(name) then dat[name] else RenderPart(parts[0])) + Render(Fill(parts[1..], {name}, dat))
  {
    assert Fill(parts, {name}, dat)[1..] == Fill(parts[1..], {name}, dat);
  }

  /** Filling holes with their own placeholders does not show. */
  lemma {:induction false} FillBySelf(parts: seq<Part>, name: string, dat: map<string, string>)
    requires name in dat && dat[name] == Placeholder(name)
    ensures Render(Fill(parts, {name}, dat)) == Render(parts)
  {
    if parts != [] {
      FillBySelf(parts[1..], name, dat);
      assert Fill(parts, {name}, dat)[1..] == Fill(parts[1..], {name}, dat);
    }
  }

  // ---------------------------------------------------------------------------------------------
  // The loop

  function Names(names: seq<string>): set<string> {
    set n | n in names
  }

  lemma FillNothing(parts: seq<Part>, dat: map<string, string>)
    ensures Fill(parts, Names([]), dat) == parts
  {
    assert Names([]) == {};
  }

  /** Filling the holes of one more name. */
  lemma FillMore(parts: seq<Part>, names: seq<string>, dat: map<string, string>)
    requires names != []
    ensures var front, prm := names[..|names| - 1], names[|names| - 1];
            Fill(parts, Names(names), dat)
            == if prm in dat then Fill(Fill(parts, Names(front), dat), {prm}, dat) else Fill(parts, Names(front), dat)
  {
    assert Names(names) == Names(names[..|names| - 1]) + {names[|names| - 1]} by {
      assert names == names[..|names| - 1] + [names[|names| - 1]];
    }
  }

  lemma FilledIsCalm(parts: seq<Part>, front: seq<string>, names: seq<string>, dat: map<string, string>, n: string)
    requires WellFormed(parts) && Harmless(names, dat) && n in names && Active(n, dat)
    requires forall a :: a in front ==> a in names
    ensures Calm(Fill(parts, Names(front), dat), n)
  {
    forall i | 0 <= i < |parts|
      ensures CalmPart(Fill(parts, Names(front), dat)[i], n)
    {
      assert WellFormedPart(parts[i]);
    }
  }

  /** The sequential loop equals one simultaneous substitution. */
  lemma {:induction false} ExpandIsFill(parts: seq<Part>, names: seq<string>, dat: map<string, string>)
    requires WellFormed(parts) && Named(names, dat) && Harmless(names, dat)
    ensures ExpandAll(Render(parts), names, dat) == Render(Fill(parts, Names(names), dat))
  {
    if names == [] {
      FillNothing(parts, dat);
    } else {
      var front, prm := names[..|names| - 1], names[|names| - 1];
      assert prm in names && forall a :: a in front ==> a in names;
      ExpandIsFill(parts, front, dat);
      FillMore(parts, names, dat);
      var filled := Fill(parts, Names(front), dat);
      if Active(prm, dat) {
        FilledIsCalm(parts, front, names, dat, prm);
        ReplaceIsFill(filled, prm, dat);
      } else if prm in dat {
        ReplaceBySelf(Render(filled), Placeholder(prm));
        FillBySelf(filled, prm, dat);
      }
    }
  }

  lemma SameNamesSameHarm(names: seq<string>, xs: seq<string>, dat: map<string, string>)
    requires Names(xs) == Names(names)
    ensures (Harmless(names, dat) <==> Harmless(xs, dat)) && (Named(names, dat) <==> Named(xs, dat))
  {
    assert forall n :: n in xs <==> n in Names(xs);
    assert forall n :: n in names <==> n in Names(names);
  }

  /** So neither the order nor the repetition of the listed names matters. */
  lemma ExpansionOrderIrrelevant(parts: seq<Part>, xs: seq<string>, ys: seq<string>, dat: map<string, string>)
    requires WellFormed(parts) && Named(xs, dat) && Harmless(xs, dat) && Names(xs) == Names(ys)
    ensures ExpandAll(Render(parts), xs, dat) == ExpandAll(Render(parts), ys, dat)
  {
    SameNamesSameHarm(xs, ys, dat);
    ExpandIsFill(parts, xs, dat);
    ExpandIsFill(parts, ys, dat);
  }

  // ---------------------------------------------------------------------------------------------
  // The condition on the values is exact

  lemma {:induction false} ReplaceMonotone(s: string, p: string, v: string)
    requires p != ""
    ensures |v| >= |p| ==> |ReplaceAll(s, p, v)| >= |s|
    ensures |v| <= |p| ==> |ReplaceAll(s, p, v)| <= |s|
  {
    if s != "" {
      if p <= s {
        ReplaceMonotone(s[|p|..], p, v);
      } else {
        ReplaceMonotone(s[1..], p, v);
      }
    }
  }

  /** Replacing something that occurs by something else changes the string. */
  lemma {:induction false} ReplaceChanges(s: string, p: string, v: string, k: nat)
    requires p != "" && v != p && k <= |s| && p <= s[k..]
    ensures ReplaceAll(s, p, v) != s
  {
    if p <= s {
      ReplaceMonotone(s[|p|..], p, v);
      assert s == p + s[|p|..];
      if |v| == |p| {
        assert ReplaceAll(s, p, v)[..|p|] == v && s[..|p|] == p;
      }
    } else {
      assert s[0..] == s;
      assert s[1..][k - 1..] == s[k..];
      ReplaceChanges(s[1..], p, v, k - 1);
      assert ReplaceAll(s, p, v)[1..] == ReplaceAll(s[1..], p, v);
    }
  }

  function Without(names: seq<string>, a: string): (r: seq<string>)
    ensures forall n :: n in r <==> n in names && n != a
  {
    if names == [] then []
    else Without(names[..|names| - 1], a) + if names[|names| - 1] == a then [] else [names[|names| - 1]]
  }

  /** Passes for other names leave a hole and text behind it alone. */
  lemma {:induction false} OthersSkip(a: string, text: string, names: seq<string>, dat: map<string, string>)
    requires BraceFree(a) && '{' !in text && a !in names && Named(names, dat)
    ensures ExpandAll(Placeholder(a) + text, names, dat) == Placeholder(a) + text
  {
    if names != [] {
      var prm := names[|names| - 1];
      assert prm in names;
      OthersSkip(a, text, names[..|names| - 1], dat);
      if prm in dat {
        ReplaceSkipsOtherHole(a, text, prm, dat[prm]);
        ReplaceSkipsText(text, "", prm, dat[prm]);
        assert text + "" == text;
      }
    }
  }

  lemma ExpandLast(script: string, names: seq<string>, n: string, dat: map<string, string>)
    requires n in dat
    ensures ExpandAll(script, names + [n], dat) == ReplaceAll(ExpandAll(script, names, dat), Placeholder(n), dat[n])
  {
    assert (names + [n])[..|names|] == names;
  }

  /** What completes the placeholder of `n` that `v` opens at position `k`. */
  function Completion(v: string, k: nat, n: string): string
    requires k <= |v|
  {
    if v[k..] <= Placeholder(n) then Placeholder(n)[|v| - k..] else ""
  }

  lemma Completed(v: string, k: nat, n: string)
    requires BraceFree(n) && k < |v| && (v[k..] <= Placeholder(n) || Placeholder(n) <= v[k..])
    ensures '{' !in Completion(v, k, n) && Placeholder(n) <= (v + Completion(v, k, n))[k..]
  {
    assert (v + Completion(v, k, n))[k..] == v[k..] + Completion(v, k, n);
  }

  /** The value of `a` opens the placeholder of `n` at position `k`. */
  predicate Opens(dat: map<string, string>, a: string, k: nat, n: string) {
    && a in dat && Active(n, dat) && k < |dat[a]| && dat[a][k] == '{'
    && (dat[a][k..] <= Placeholder(n) || Placeholder(n) <= dat[a][k..])
  }

  lemma HarmOpens(names: seq<string>, dat: map<string, string>) returns (a: string, k: nat, n: string)
    requires !Harmless(names, dat)
    ensures a in names && n in names && Opens(dat, a, k, n)
  {
    a, n :| a in names && a in dat && n in names && Active(n, dat) && !Inert(dat[a], n);
    k :| 0 <= k < |dat[a]| && dat[a][k] == '{' && (dat[a][k..] <= Placeholder(n) || Placeholder(n) <= dat[a][k..]);
  }

  /** The template in which the value of `a` meets what completes the placeholder it opens. */
  function Trap(a: string, text: string): seq<Part> {
    [Hole(a), Text(text)]
  }

  lemma TrapRenders(a: string, text: string)
    ensures Render(Trap(a, text)) == Placeholder(a) + text
    ensures BraceFree(a) && '{' !in text ==> WellFormed(Trap(a, text))
  {
    var last := [Text(text)];
    assert last[1..] == [] && Render(last) == text + "" == text;
    assert Trap(a, text)[1..] == last;
  }

  lemma FillsTrap(names: seq<string>, dat: map<string, string>, a: string, text: string)
    requires a in dat && BraceFree(a) && '{' !in text && Named(names, dat)
    ensures ExpandAll(Placeholder(a) + text, Without(names, a) + [a], dat) == dat[a] + text
  {
    OthersSkip(a, text, Without(names, a), dat);
    ExpandLast(Placeholder(a) + text, Without(names, a), a, dat);
    ReplaceFillsHole(text, a, dat[a]);
    ReplaceSkipsText(text, "", a, dat[a]);
    assert text + "" == text;
  }

  lemma SpringsTrap(names: seq<string>, dat: map<string, string>, a: string, k: nat, n: string)
    requires Named(names, dat) && a in names && n in names && Opens(dat, a, k, n)
    ensures '{' !in Completion(dat[a], k, n)
    ensures var script := Placeholder(a) + Completion(dat[a], k, n);
            var xs := Without(names, a) + [a];
            ExpandAll(script, xs, dat) != ExpandAll(script, xs + [n], dat)
  {
    var text := Completion(dat[a], k, n);
    var xs := Without(names, a) + [a];
    Completed(dat[a], k, n);
    FillsTrap(names, dat, a, text);
    ExpandLast(Placeholder(a) + text, xs, n, dat);
    ReplaceChanges(dat[a] + text, Placeholder(n), dat[n], k);
  }

  lemma TrapNames(names: seq<string>, a: string, n: string)
    requires a in names && n in names
    ensures Names(Without(names, a) + [a]) == Names(names) == Names(Without(names, a) + [a] + [n])
  {
  }

  /** A value that can open the placeholder of a listed name makes the list matter: there are a template and two
      lists of the same names that expand it differently. */
  lemma BracesInValuesMakeOrderMatter(names: seq<string>, dat: map<string, string>)
    returns (parts: seq<Part>, xs: seq<string>, ys: seq<string>)
    requires Named(names, dat) && !Harmless(names, dat)
    ensures WellFormed(parts) && Names(xs) == Names(names) && Names(ys) == Names(names)
    ensures ExpandAll(Render(parts), xs, dat) != ExpandAll(Render(parts), ys, dat)
  {
    var a, k, n := HarmOpens(names, dat);
    SpringsTrap(names, dat, a, k, n);
    TrapNames(names, a, n);
    parts := Trap(a, Completion(dat[a], k, n));
    TrapRenders(a, Completion(dat[a], k, n));
    xs := Without(names, a) + [a];
    ys := xs + [n];
  }

  /** Over all templates, order and repetition of the listed names do not matter if and only if no value can open
      the placeholder of a listed name. */
  lemma OrderIrrelevantExactly(names: seq<string>, dat: map<string, string>)
    requires Named(names, dat)
    ensures (forall parts, xs, ys :: WellFormed(parts) && Names(xs) == Names(names) && Names(ys) == Names(names)
               ==> ExpandAll(Render(parts), xs, dat) == ExpandAll(Render(parts), ys, dat))
            <==> Harmless(names, dat)
  {
    if Harmless(names, dat) {
      forall parts, xs, ys | WellFormed(parts) && Names(xs) == Names(names) && Names(ys) == Names(names)
        ensures ExpandAll(Render(parts), xs, dat) == ExpandAll(Render(parts), ys, dat)
      {
        SameNamesSameHarm(names, xs, dat);
        ExpansionOrderIrrelevant(parts, xs, ys, dat);
      }
    } else {
      var parts, xs, ys := BracesInValuesMakeOrderMatter(names, dat);
    }
  }

  /** And under the same condition, and no other, the loop is one simultaneous substitution. */
  lemma SubstitutionExactly(names: seq<string>, dat: map<string, string>)
    requires Named(names, dat)
    ensures (forall parts, xs :: WellFormed(parts) && Names(xs) == Names(names)
               ==> ExpandAll(Render(parts), xs, dat) == Render(Fill(parts, Names(names), dat)))
            <==> Harmless(names, dat)
  {
    if Harmless(names, dat) {
      forall parts, xs | WellFormed(parts) && Names(xs) == Names(names)
        ensures ExpandAll(Render(parts), xs, dat) == Render(Fill(parts, Names(names), dat))
      {
        SameNamesSameHarm(names, xs, dat);
        ExpandIsFill(parts, xs, dat);
      }
    } else {
      var parts, xs, ys := BracesInValuesMakeOrderMatter(names, dat);
    }
  }

  /** A value that is a listed placeholder is harmful, and so is one that only begins like one. */
  lemma HarmfulValues(a: string, n: string, v: string)
    requires a != n && BraceFree(n) && 0 < |v| && v <= Placeholder(n)
    ensures !Harmless([a, n], map[a := v, n := "x"])
  {
    var dat := map[a := v, n := "x"];
    assert v[0..] == v && v[0] == Placeholder(n)[0] == '{';
    assert !Inert(dat[a], n);
    assert a in [a, n] && n in [a, n] && Active(n, dat) by {
      assert |Placeholder(n)| >= 2;
    }
  }

  /** An empty script stays empty. */
  lemma {:induction false} ExpandEmpty(names: seq<string>, dat: map<string, string>)
    ensures ExpandAll("", names, dat) == ""
  {
    if names != [] {
      ExpandEmpty(names[..|names| - 1], dat);
    }
  }
}
