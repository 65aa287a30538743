/** Comparing two servers' diagnostics for one file (scripts/lsp-diff.py:252-308). */
module LspDiff {
  import opened Options

  /** The fields of a diagnostic that are read; each may be absent. The other fields only take part in equality. */
  datatype Position = Position(line: Option<int>, character: Option<int>)

  datatype Range = Range(start: Option<Position>, end: Option<Position>)

  datatype Diagnostic = Diagnostic(range: Option<Range>, message: Option<string>, other: int)

  type Key = (int, int, int, int)

  type Entry = (Key, string)

  function Number(value: Option<int>): int { if value.Some? then value.value else -1 }

  function KeyOf(d: Diagnostic): Key
  {
    var absent := Position(None, None);
    var range := if d.range.Some? then d.range.value else Range(None, None);
    var start := if range.start.Some? then range.start.value else absent;
    var end := if range.end.Some? then range.end.value else absent;
    (Number(start.line), Number(start.character), Number(end.line), Number(end.character))
  }

  ghost predicate Placed(d: Diagnostic)
  {
    && d.range.Some? && d.range.value.start.Some? && d.range.value.end.Some?
    && d.range.value.start.value.line.Some? && d.range.value.start.value.character.Some?
    && d.range.value.end.value.line.Some? && d.range.value.end.value.character.Some?
  }

  /** Keys read off complete ranges and tell them apart, and a missing range is a place of its own. */
  lemma KeysTellRanges(a: Diagnostic, b: Diagnostic)
    requires Placed(a)
    ensures var (start, end) := (a.range.value.start.value, a.range.value.end.value);
      KeyOf(a) == (start.line.value, start.character.value, end.line.value, end.character.value)
    ensures Placed(b) ==> (KeyOf(a) == KeyOf(b) <==> a.range == b.range)
    ensures b.range.None? ==> (KeyOf(a) == KeyOf(b) <==> KeyOf(a) == (-1, -1, -1, -1))
  {
  }

  // ---------------------------------------------------------------- whitespace

  /** What `str.split` separates on. */
  predicate IsSpace(c: char)
  {
    var n := c as int;
    || 0x09 <= n <= 0x0D || 0x1C <= n <= 0x20 || n == 0x85 || n == 0xA0 || n == 0x1680
    || 0x2000 <= n <= 0x200A || n == 0x2028 || n == 0x2029 || n == 0x202F || n == 0x205F || n == 0x3000
  }

  /** The words of `s`, with `word` read just before it. */
  function SplitAfter(word: string, s: string): seq<string>
    decreases s
  {
    if s == "" then if word == "" then [] else [word]
    else if IsSpace(s[0]) then (if word == "" then [] else [word]) + SplitAfter("", s[1..])
    else SplitAfter(word + [s[0]], s[1..])
  }

  function Words(s: string): seq<string> { SplitAfter("", s) }

  function Join(words: seq<string>): string
  {
    if words == [] then "" else if |words| == 1 then words[0] else words[0] + " " + Join(words[1..])
  }

  function Normalize(message: Option<string>): string { Join(Words(if message.Some? then message.value else "")) }

  function EntryOf(d: Diagnostic): Entry { (KeyOf(d), Normalize(d.message)) }

  predicate IsWord(w: string) { w != "" && forall c <- w :: !IsSpace(c) }

  lemma {:induction false} SplitWord(word: string, w: string, s: string)
    requires forall c <- w :: !IsSpace(c)
    ensures SplitAfter(word, w + s) == SplitAfter(word + w, s)
    decreases w
  {
    if w == "" {
      assert w + s == s && word + w == word;
    } else {
      assert w[0] in w && (w + s)[1..] == w[1..] + s && word + w == word + [w[0]] + w[1..];
      assert forall c <- w[1..] :: c in w;
      SplitWord(word + [w[0]], w[1..], s);
    }
  }

  /** A word, then a space, then the rest. */
  lemma SplitFirst(w: string, rest: string)
    requires IsWord(w)
    ensures Words(w) == [w] && Words(w + " " + rest) == [w] + Words(rest)
  {
    var tail := " " + rest;
    SplitWord("", w, "");
    SplitWord("", w, tail);
    assert w + "" == w && "" + w == w && w + " " + rest == w + tail;
    assert tail[1..] == rest && IsSpace(tail[0]);
  }

  /** Joined words split into themselves. */
  lemma {:induction false} WordsOfJoin(words: seq<string>)
    requires forall w <- words :: IsWord(w)
    ensures Words(Join(words)) == words
  {
    if words != [] {
      var w, rest := words[0], words[1..];
      assert w in words && (forall x <- rest :: x in words) && words == [w] + rest;
      WordsOfJoin(rest);
      SplitFirst(w, Join(rest));
    }
  }

  lemma {:induction false} SplitIsWords(word: string, s: string)
    requires forall c <- word :: !IsSpace(c)
    ensures forall w <- SplitAfter(word, s) :: IsWord(w)
    decreases s
  {
    if s != "" {
      SplitIsWords(if IsSpace(s[0]) then "" else word + [s[0]], s[1..]);
    }
  }

  /** Messages compare equal exactly when they have the same words, however those are wrapped; normalising
      again changes nothing. */
  lemma NormalizeComparesWords(a: string, b: string)
    ensures Normalize(Some(a)) == Normalize(Some(b)) <==> Words(a) == Words(b)
    ensures Normalize(Some(Normalize(Some(a)))) == Normalize(Some(a))
  {
    SplitIsWords("", a);
    SplitIsWords("", b);
    WordsOfJoin(Words(a));
    WordsOfJoin(Words(b));
  }

  function Concat(words: seq<string>): string { if words == [] then "" else words[0] + Concat(words[1..]) }

  /** `s` without its white space. */
  function Visible(s: string): string
  {
    if s == "" then "" else (if IsSpace(s[0]) then "" else [s[0]]) + Visible(s[1..])
  }

  lemma {:induction false} SplitKeepsText(word: string, s: string)
    ensures Concat(SplitAfter(word, s)) == word + Visible(s)
    decreases s
  {
    if s == "" {
      assert word != "" ==> [word][1..] == [] && Concat([word]) == word + "";
    } else if IsSpace(s[0]) {
      SplitKeepsText("", s[1..]);
      var rest := SplitAfter("", s[1..]);
      assert "" + Visible(s[1..]) == Visible(s[1..]) == Visible(s);
      assert word == "" ==> [] + rest == rest;
      assert word != "" ==> ([word] + rest)[1..] == rest && Concat([word] + rest) == word + Concat(rest);
    } else {
      SplitKeepsText(word + [s[0]], s[1..]);
      assert word + [s[0]] + Visible(s[1..]) == word + ([s[0]] + Visible(s[1..]));
    }
  }

  /** Splitting loses white space only, and no word has any. */
  lemma WordsKeepText(s: string)
    ensures Concat(Words(s)) == Visible(s) && forall w <- Words(s) :: IsWord(w)
  {
    SplitKeepsText("", s);
    SplitIsWords("", s);
    assert "" + Visible(s) == Visible(s);
  }

  // ---------------------------------------------------------------- comparing

  datatype Wording = Wording(at: Key, reference: string, krusty: string)

  datatype Moved = Moved(message: string, referenceAt: Key, krustyAt: Key)

  datatype Classes = Classes(
      matched: seq<Entry>, extra: seq<Entry>, missing: seq<Entry>, wording: seq<Wording>, moved: seq<Moved>)

  datatype State = State(remaining: seq<Diagnostic>, classes: Classes)

  function SamePlace(remaining: seq<Diagnostic>, at: Key): (r: seq<Diagnostic>)
    ensures forall d :: d in r <==> d in remaining && KeyOf(d) == at
  {
    if remaining == [] then []
    else
      var last := remaining[|remaining| - 1];
      assert remaining == remaining[..|remaining| - 1] + [last];
      SamePlace(remaining[..|remaining| - 1], at) + if KeyOf(last) == at then [last] else []
  }

  function FirstSaying(diagnostics: seq<Diagnostic>, text: string): (r: Option<Diagnostic>)
    ensures r.Some? ==> r.value in diagnostics && Normalize(r.value.message) == text
    ensures r.None? ==> forall d <- diagnostics :: Normalize(d.message) != text
  {
    if diagnostics == [] then None
    else if Normalize(diagnostics[0].message) == text then Some(diagnostics[0])
    else FirstSaying(diagnostics[1..], text)
  }

  /** The first element equal to `d` goes. */
  function Remove(s: seq<Diagnostic>, d: Diagnostic): seq<Diagnostic>
    requires d in s
  {
    if s[0] == d then s[1..] else [s[0]] + Remove(s[1..], d)
  }

  function Classify(s: State, expected: Diagnostic): State
  {
    var (at, text) := EntryOf(expected);
    var samePlace := SamePlace(s.remaining, at);
    var exact := FirstSaying(samePlace, text);
    var elsewhere := FirstSaying(s.remaining, text);
    if exact.Some? then
      State(Remove(s.remaining, exact.value), s.classes.(matched := s.classes.matched + [(at, text)]))
    else if samePlace != [] then
      var got := samePlace[0];
      State(
        Remove(s.remaining, got),
        s.classes.(wording := s.classes.wording + [Wording(at, text, Normalize(got.message))]))
    else if elsewhere.Some? then
      State(
        Remove(s.remaining, elsewhere.value),
        s.classes.(moved := s.classes.moved + [Moved(text, at, KeyOf(elsewhere.value))]))
    else s.(classes := s.classes.(missing := s.classes.missing + [(at, text)]))
  }

  function ClassifyAll(s: State, reference: seq<Diagnostic>): State
    decreases reference
  {
    if reference == [] then s else ClassifyAll(Classify(s, reference[0]), reference[1..])
  }

  function Entries(s: seq<Diagnostic>): (r: seq<Entry>)
    ensures |r| == |s|
  {
    if s == [] then [] else [EntryOf(s[0])] + Entries(s[1..])
  }

  const NONE := Classes([], [], [], [], [])

  function Comparison(reference: seq<Diagnostic>, krusty: seq<Diagnostic>): Classes
  {
    var end := ClassifyAll(State(krusty, NONE), reference);
    end.classes.(extra := Entries(end.remaining))
  }

  method Compare(reference: seq<Diagnostic>, krusty: seq<Diagnostic>) returns (result: Classes)
    ensures result == Comparison(reference, krusty)
  {
    result := NONE;
    var remaining := krusty;
    for i := 0 to |reference|
      invariant ClassifyAll(State(krusty, NONE), reference) == ClassifyAll(State(remaining, result), reference[i..])
    {
      assert reference[i..][0] == reference[i] && reference[i..][1..] == reference[i + 1..];
      var position, text := KeyOf(reference[i]), Normalize(reference[i].message);
      var samePlace := SamePlace(remaining, position);
      var exact := FirstSaying(samePlace, text);
      if exact.Some? {
        remaining := Remove(remaining, exact.value);
        result := result.(matched := result.matched + [(position, text)]);
        continue;
      }
      if samePlace != [] {
        var got := samePlace[0];
        remaining := Remove(remaining, got);
        result := result.(wording := result.wording + [Wording(position, text, Normalize(got.message))]);
        continue;
      }
      var elsewhere := FirstSaying(remaining, text);
      if elsewhere.Some? {
        remaining := Remove(remaining, elsewhere.value);
        result := result.(moved := result.moved + [Moved(text, position, KeyOf(elsewhere.value))]);
        continue;
      }
      result := result.(missing := result.missing + [(position, text)]);
    }
    var extra := ListLeftovers(remaining);
    result := result.(extra := extra);
  }

  method ListLeftovers(remaining: seq<Diagnostic>) returns (extra: seq<Entry>)
    ensures extra == Entries(remaining)
  {
    extra := [];
    for i := 0 to |remaining|
      invariant Entries(remaining) == extra + Entries(remaining[i..])
    {
      assert remaining[i..][0] == remaining[i] && remaining[i..][1..] == remaining[i + 1..];
      extra := extra + [(KeyOf(remaining[i]), Normalize(remaining[i].message))];
    }
  }

  // ---------------------------------------------------------------- conservation

  function Bag(s: seq<Diagnostic>): multiset<Entry> { multiset(Entries(s)) }

  function WordingReference(s: seq<Wording>): seq<Entry>
  {
    if s == [] then [] else WordingReference(s[..|s| - 1]) + [(s[|s| - 1].at, s[|s| - 1].reference)]
  }

  function WordingKrusty(s: seq<Wording>): seq<Entry>
  {
    if s == [] then [] else WordingKrusty(s[..|s| - 1]) + [(s[|s| - 1].at, s[|s| - 1].krusty)]
  }

  function MovedReference(s: seq<Moved>): seq<Entry>
  {
    if s == [] then [] else MovedReference(s[..|s| - 1]) + [(s[|s| - 1].referenceAt, s[|s| - 1].message)]
  }

  function MovedKrusty(s: seq<Moved>): seq<Entry>
  {
    if s == [] then [] else MovedKrusty(s[..|s| - 1]) + [(s[|s| - 1].krustyAt, s[|s| - 1].message)]
  }

  /** What the classes say about the reference's diagnostics. */
  function ReferenceSide(c: Classes): multiset<Entry>
  {
    multiset(c.matched) + multiset(WordingReference(c.wording)) + multiset(MovedReference(c.moved)) +
    multiset(c.missing)
  }

  /** What they say about the diagnostics taken from the other side. */
  function TakenSide(c: Classes): multiset<Entry>
  {
    multiset(c.matched) + multiset(WordingKrusty(c.wording)) + multiset(MovedKrusty(c.moved))
  }

  lemma BagPush(s: seq<Diagnostic>)
    requires s != []
    ensures Bag(s) == multiset{EntryOf(s[0])} + Bag(s[1..])
  {
  }

  lemma {:induction false} BagRemove(s: seq<Diagnostic>, d: Diagnostic)
    requires d in s
    ensures Bag(Remove(s, d)) + multiset{EntryOf(d)} == Bag(s)
  {
    BagPush(s);
    if s[0] != d {
      BagRemove(s[1..], d);
      var r := [s[0]] + Remove(s[1..], d);
      assert r[1..] == Remove(s[1..], d);
      BagPush(r);
    }
  }

  lemma WordingPush(s: seq<Wording>, w: Wording)
    ensures WordingReference(s + [w]) == WordingReference(s) + [(w.at, w.reference)]
    ensures WordingKrusty(s + [w]) == WordingKrusty(s) + [(w.at, w.krusty)]
  {
    assert (s + [w])[..|s|] == s;
  }

  lemma MovedPush(s: seq<Moved>, m: Moved)
    ensures MovedReference(s + [m]) == MovedReference(s) + [(m.referenceAt, m.message)]
    ensures MovedKrusty(s + [m]) == MovedKrusty(s) + [(m.krustyAt, m.message)]
  {
    assert (s + [m])[..|s|] == s;
  }

  /** A reworded diagnostic differs in text and a moved one in place. */
  ghost predicate Differing(c: Classes)
  {
    && (forall w <- c.wording :: w.reference != w.krusty)
    && (forall m <- c.moved :: m.referenceAt != m.krustyAt)
  }

  lemma MatchedPush(c: Classes, e: Entry)
    ensures ReferenceSide(c.(matched := c.matched + [e])) == ReferenceSide(c) + multiset{e}
    ensures TakenSide(c.(matched := c.matched + [e])) == TakenSide(c) + multiset{e}
  {
  }

  lemma MissingPush(c: Classes, e: Entry)
    ensures ReferenceSide(c.(missing := c.missing + [e])) == ReferenceSide(c) + multiset{e}
    ensures TakenSide(c.(missing := c.missing + [e])) == TakenSide(c)
  {
  }

  lemma RewordedPush(c: Classes, w: Wording)
    ensures ReferenceSide(c.(wording := c.wording + [w])) == ReferenceSide(c) + multiset{(w.at, w.reference)}
    ensures TakenSide(c.(wording := c.wording + [w])) == TakenSide(c) + multiset{(w.at, w.krusty)}
  {
    WordingPush(c.wording, w);
  }

  lemma RelocatedPush(c: Classes, m: Moved)
    ensures ReferenceSide(c.(moved := c.moved + [m])) == ReferenceSide(c) + multiset{(m.referenceAt, m.message)}
    ensures TakenSide(c.(moved := c.moved + [m])) == TakenSide(c) + multiset{(m.krustyAt, m.message)}
  {
    MovedPush(c.moved, m);
  }

  lemma BagMoves(taken: multiset<Entry>, rest: multiset<Entry>, e: Entry)
    ensures taken + multiset{e} + rest == taken + (rest + multiset{e}) == taken + (multiset{e} + rest) ==
      taken + rest + multiset{e}
  {
  }

  lemma ClassifyConserves(s: State, d: Diagnostic)
    ensures var next := Classify(s, d);
      && ReferenceSide(next.classes) == ReferenceSide(s.classes) + multiset{EntryOf(d)}
      && TakenSide(next.classes) + Bag(next.remaining) == TakenSide(s.classes) + Bag(s.remaining)
  {
    var (at, text) := EntryOf(d);
    var samePlace := SamePlace(s.remaining, at);
    var exact, elsewhere := FirstSaying(samePlace, text), FirstSaying(s.remaining, text);
    if exact.Some? {
      MatchedPush(s.classes, (at, text));
      TakeOne(s, exact.value);
    } else if samePlace != [] {
      assert samePlace[0] in samePlace;
      RewordedPush(s.classes, Wording(at, text, Normalize(samePlace[0].message)));
      TakeOne(s, samePlace[0]);
    } else if elsewhere.Some? {
      RelocatedPush(s.classes, Moved(text, at, KeyOf(elsewhere.value)));
      TakeOne(s, elsewhere.value);
    } else {
      MissingPush(s.classes, (at, text));
    }
  }

  lemma TakeOne(s: State, d: Diagnostic)
    requires d in s.remaining
    ensures TakenSide(s.classes) + multiset{EntryOf(d)} + Bag(Remove(s.remaining, d)) ==
      TakenSide(s.classes) + Bag(s.remaining)
  {
    BagRemove(s.remaining, d);
    BagMoves(TakenSide(s.classes), Bag(Remove(s.remaining, d)), EntryOf(d));
  }

  lemma ClassifyDiffering(s: State, d: Diagnostic)
    requires Differing(s.classes)
    ensures Differing(Classify(s, d).classes)
  {
    var (at, text) := EntryOf(d);
    var samePlace := SamePlace(s.remaining, at);
    assert samePlace != [] ==> samePlace[0] in samePlace;
  }

  lemma {:induction false} ClassifyAllConserves(s: State, reference: seq<Diagnostic>)
    requires Differing(s.classes)
    ensures var end := ClassifyAll(s, reference);
      && ReferenceSide(end.classes) == ReferenceSide(s.classes) + Bag(reference)
      && TakenSide(end.classes) + Bag(end.remaining) == TakenSide(s.classes) + Bag(s.remaining)
      && Differing(end.classes)
    decreases reference
  {
    if reference != [] {
      ClassifyConserves(s, reference[0]);
      ClassifyDiffering(s, reference[0]);
      ClassifyAllConserves(Classify(s, reference[0]), reference[1..]);
      BagPush(reference);
    }
  }

  /** Nothing is lost or invented: the classes hold each reference diagnostic once and each krusty diagnostic
      once, by place and normalised text. */
  lemma ComparisonConserves(reference: seq<Diagnostic>, krusty: seq<Diagnostic>)
    ensures var c := Comparison(reference, krusty);
      && ReferenceSide(c) == Bag(reference)
      && TakenSide(c) + multiset(c.extra) == Bag(krusty)
      && Differing(c)
  {
    ClassifyAllConserves(State(krusty, NONE), reference);
  }

  lemma {:induction false} SideSizes(c: Classes)
    ensures |WordingReference(c.wording)| == |WordingKrusty(c.wording)| == |c.wording|
    ensures |MovedReference(c.moved)| == |MovedKrusty(c.moved)| == |c.moved|
  {
    WordingSize(c.wording);
    MovedSize(c.moved);
  }

  lemma {:induction false} WordingSize(s: seq<Wording>)
    ensures |WordingReference(s)| == |WordingKrusty(s)| == |s|
  {
    if s != [] {
      WordingSize(s[..|s| - 1]);
    }
  }

  lemma {:induction false} MovedSize(s: seq<Moved>)
    ensures |MovedReference(s)| == |MovedKrusty(s)| == |s|
  {
    if s != [] {
      MovedSize(s[..|s| - 1]);
    }
  }

  /** The counts of the classes add up on both sides. */
  lemma ComparisonCounts(reference: seq<Diagnostic>, krusty: seq<Diagnostic>)
    ensures var c := Comparison(reference, krusty);
      && |c.matched| + |c.wording| + |c.moved| + |c.missing| == |reference|
      && |c.matched| + |c.wording| + |c.moved| + |c.extra| == |krusty|
  {
    var c := Comparison(reference, krusty);
    ComparisonConserves(reference, krusty);
    SideSizes(c);
    assert |ReferenceSide(c)| == |Bag(reference)| && |TakenSide(c) + multiset(c.extra)| == |Bag(krusty)|;
  }

  // ---------------------------------------------------------------- one step

  /** The first remaining diagnostic of which `wanted` holds is the `k`-th. */
  ghost predicate FirstAt(remaining: seq<Diagnostic>, wanted: Diagnostic -> bool, k: int)
  {
    0 <= k < |remaining| && wanted(remaining[k]) && forall j :: 0 <= j < k ==> !wanted(remaining[j])
  }

  function SameEntry(e: Entry): Diagnostic -> bool { (d: Diagnostic) => EntryOf(d) == e }

  function Here(at: Key): Diagnostic -> bool { (d: Diagnostic) => KeyOf(d) == at }

  function Says(text: string): Diagnostic -> bool { (d: Diagnostic) => Normalize(d.message) == text }

  ghost predicate Without(remaining: seq<Diagnostic>, k: int, rest: seq<Diagnostic>)
  {
    0 <= k < |remaining| && rest == remaining[..k] + remaining[k + 1..]
  }

  ghost predicate Nowhere(remaining: seq<Diagnostic>, wanted: Diagnostic -> bool)
  {
    forall d <- remaining :: !wanted(d)
  }

  ghost predicate Matches(s: State, e: Entry, next: State, k: int)
  {
    Without(s.remaining, k, next.remaining) && next.classes == s.classes.(matched := s.classes.matched + [e])
  }

  ghost predicate Rewords(s: State, e: Entry, next: State, k: int)
  {
    && Without(s.remaining, k, next.remaining)
    && next.classes ==
      s.classes.(wording := s.classes.wording + [Wording(e.0, e.1, Normalize(s.remaining[k].message))])
  }

  ghost predicate Moves(s: State, e: Entry, next: State, k: int)
  {
    && Without(s.remaining, k, next.remaining)
    && next.classes == s.classes.(moved := s.classes.moved + [Moved(e.1, e.0, KeyOf(s.remaining[k]))])
  }

  /** What one reference diagnostic does: it takes the first remaining one that is equal; where there is none,
      the first in its place; where there is none, the first that says the same; or it is missing. */
  ghost predicate StepIs(s: State, e: Entry, next: State)
  {
    && (forall k :: FirstAt(s.remaining, SameEntry(e), k) ==> Matches(s, e, next, k))
    && (Nowhere(s.remaining, SameEntry(e)) ==>
      forall k :: FirstAt(s.remaining, Here(e.0), k) ==> Rewords(s, e, next, k))
    && (Nowhere(s.remaining, Here(e.0)) ==>
      forall k :: FirstAt(s.remaining, Says(e.1), k) ==> Moves(s, e, next, k))
    && (Nowhere(s.remaining, Here(e.0)) && Nowhere(s.remaining, Says(e.1)) ==>
      next == s.(classes := s.classes.(missing := s.classes.missing + [e])))
  }

  lemma {:induction false} RemoveAt(s: seq<Diagnostic>, d: Diagnostic) returns (k: nat)
    requires d in s
    ensures k < |s| && s[k] == d && (forall j :: 0 <= j < k ==> s[j] != d) && Without(s, k, Remove(s, d))
  {
    if s[0] == d {
      k := 0;
    } else {
      k := RemoveAt(s[1..], d);
      k := k + 1;
    }
  }

  lemma {:induction false} SayingAt(s: seq<Diagnostic>, text: string) returns (k: nat)
    requires FirstSaying(s, text).Some?
    ensures FirstAt(s, Says(text), k) && s[k] == FirstSaying(s, text).value
  {
    if Normalize(s[0].message) == text {
      k := 0;
    } else {
      k := SayingAt(s[1..], text);
      k := k + 1;
    }
  }

  /** The first in a place, and the first there that says a text, come from the first such diagnostics. */
  lemma {:induction false} PlaceAt(s: seq<Diagnostic>, at: Key, wanted: Diagnostic -> bool, j: nat) returns (k: nat)
    requires FirstAt(SamePlace(s, at), wanted, j)
    ensures k < |s| && s[k] == SamePlace(s, at)[j] && forall i :: 0 <= i < k && KeyOf(s[i]) == at ==> !wanted(s[i])
    decreases |s|
  {
    var n := |s| - 1;
    var before := SamePlace(s[..n], at);
    if j < |before| {
      assert forall i :: 0 <= i < |before| ==> before[i] == SamePlace(s, at)[i];
      k := PlaceAt(s[..n], at, wanted, j);
    } else {
      k := n;
      forall i | 0 <= i < n && KeyOf(s[i]) == at ensures !wanted(s[i]) {
        assert s[..n][i] in before;
        var m :| 0 <= m < |before| && before[m] == s[i];
        assert SamePlace(s, at)[m] == s[i];
      }
    }
  }

  lemma EqualTaken(s: State, d: Diagnostic) returns (k: nat)
    requires FirstSaying(SamePlace(s.remaining, KeyOf(d)), Normalize(d.message)).Some?
    ensures FirstAt(s.remaining, SameEntry(EntryOf(d)), k) && Without(s.remaining, k, Classify(s, d).remaining)
  {
    var samePlace := SamePlace(s.remaining, KeyOf(d));
    var j := SayingAt(samePlace, Normalize(d.message));
    var first := PlaceAt(s.remaining, KeyOf(d), Says(Normalize(d.message)), j);
    k := RemoveAt(s.remaining, samePlace[j]);
    assert k == first;
  }

  lemma PlaceTaken(s: State, d: Diagnostic) returns (k: nat)
    requires SamePlace(s.remaining, KeyOf(d)) != []
    requires FirstSaying(SamePlace(s.remaining, KeyOf(d)), Normalize(d.message)).None?
    ensures FirstAt(s.remaining, Here(KeyOf(d)), k) && Without(s.remaining, k, Classify(s, d).remaining)
    ensures s.remaining[k] == SamePlace(s.remaining, KeyOf(d))[0]
  {
    var samePlace := SamePlace(s.remaining, KeyOf(d));
    assert samePlace[0] in samePlace;
    var first := PlaceAt(s.remaining, KeyOf(d), Here(KeyOf(d)), 0);
    k := RemoveAt(s.remaining, samePlace[0]);
    assert k == first;
  }

  lemma TextTaken(s: State, d: Diagnostic) returns (k: nat)
    requires SamePlace(s.remaining, KeyOf(d)) == [] && FirstSaying(s.remaining, Normalize(d.message)).Some?
    ensures FirstAt(s.remaining, Says(Normalize(d.message)), k) && Without(s.remaining, k, Classify(s, d).remaining)
    ensures s.remaining[k] == FirstSaying(s.remaining, Normalize(d.message)).value
  {
    var first := SayingAt(s.remaining, Normalize(d.message));
    k := RemoveAt(s.remaining, s.remaining[first]);
    assert Says(Normalize(d.message))(s.remaining[first]) && s.remaining[k] == s.remaining[first];
    assert k == first;
  }

  lemma FirstAtUnique(remaining: seq<Diagnostic>, wanted: Diagnostic -> bool, k: int)
    requires FirstAt(remaining, wanted, k)
    ensures forall j :: FirstAt(remaining, wanted, j) ==> j == k
    ensures !Nowhere(remaining, wanted)
  {
  }

  lemma NotThere(remaining: seq<Diagnostic>, wanted: Diagnostic -> bool)
    requires Nowhere(remaining, wanted)
    ensures forall k :: !FirstAt(remaining, wanted, k)
  {
  }

  lemma NoneEqual(remaining: seq<Diagnostic>, d: Diagnostic)
    requires FirstSaying(SamePlace(remaining, KeyOf(d)), Normalize(d.message)).None?
    ensures Nowhere(remaining, SameEntry(EntryOf(d)))
  {
    forall x | x in remaining ensures EntryOf(x) != EntryOf(d) {
      if KeyOf(x) == KeyOf(d) { assert x in SamePlace(remaining, KeyOf(d)); }
    }
  }

  lemma StepMatches(s: State, d: Diagnostic)
    requires FirstSaying(SamePlace(s.remaining, KeyOf(d)), Normalize(d.message)).Some?
    ensures StepIs(s, EntryOf(d), Classify(s, d))
  {
    var k := EqualTaken(s, d);
    FirstAtUnique(s.remaining, SameEntry(EntryOf(d)), k);
    assert !Nowhere(s.remaining, Here(KeyOf(d))) by {
      assert Here(KeyOf(d))(s.remaining[k]);
    }
  }

  lemma StepRewords(s: State, d: Diagnostic)
    requires SamePlace(s.remaining, KeyOf(d)) != []
    requires FirstSaying(SamePlace(s.remaining, KeyOf(d)), Normalize(d.message)).None?
    ensures StepIs(s, EntryOf(d), Classify(s, d))
  {
    NoneEqual(s.remaining, d);
    NotThere(s.remaining, SameEntry(EntryOf(d)));
    var k := PlaceTaken(s, d);
    FirstAtUnique(s.remaining, Here(KeyOf(d)), k);
  }

  lemma NonePlaced(remaining: seq<Diagnostic>, d: Diagnostic)
    requires SamePlace(remaining, KeyOf(d)) == []
    ensures forall k :: !FirstAt(remaining, SameEntry(EntryOf(d)), k) && !FirstAt(remaining, Here(KeyOf(d)), k)
  {
    assert Nowhere(remaining, Here(KeyOf(d))) && Nowhere(remaining, SameEntry(EntryOf(d)));
    NotThere(remaining, SameEntry(EntryOf(d)));
    NotThere(remaining, Here(KeyOf(d)));
  }

  lemma StepMoves(s: State, d: Diagnostic)
    requires SamePlace(s.remaining, KeyOf(d)) == [] && FirstSaying(s.remaining, Normalize(d.message)).Some?
    ensures StepIs(s, EntryOf(d), Classify(s, d))
  {
    NonePlaced(s.remaining, d);
    var k := TextTaken(s, d);
    FirstAtUnique(s.remaining, Says(Normalize(d.message)), k);
  }

  lemma StepMisses(s: State, d: Diagnostic)
    requires SamePlace(s.remaining, KeyOf(d)) == [] && FirstSaying(s.remaining, Normalize(d.message)).None?
    ensures StepIs(s, EntryOf(d), Classify(s, d))
  {
    NonePlaced(s.remaining, d);
    NotThere(s.remaining, Says(Normalize(d.message)));
  }

  /** One step of the comparison does what it should, whichever branch it takes. */
  lemma StepExactly(s: State, d: Diagnostic)
    ensures StepIs(s, EntryOf(d), Classify(s, d))
  {
    var samePlace := SamePlace(s.remaining, KeyOf(d));
    if FirstSaying(samePlace, Normalize(d.message)).Some? {
      StepMatches(s, d);
    } else if samePlace != [] {
      StepRewords(s, d);
    } else if FirstSaying(s.remaining, Normalize(d.message)).Some? {
      StepMoves(s, d);
    } else {
      StepMisses(s, d);
    }
  }

  ghost predicate Steps(states: seq<State>, reference: seq<Diagnostic>)
  {
    && |states| == |reference| + 1
    && forall i :: 0 <= i < |reference| ==> StepIs(states[i], EntryOf(reference[i]), states[i + 1])
  }

  lemma {:induction false} RunSteps(s: State, reference: seq<Diagnostic>) returns (states: seq<State>)
    ensures Steps(states, reference) && states[0] == s && states[|reference|] == ClassifyAll(s, reference)
    decreases reference
  {
    if reference == [] {
      states := [s];
    } else {
      StepExactly(s, reference[0]);
      var rest := RunSteps(Classify(s, reference[0]), reference[1..]);
      states := [s] + rest;
      StepsFront(s, rest, reference);
    }
  }

  lemma StepsFront(s: State, rest: seq<State>, reference: seq<Diagnostic>)
    requires reference != [] && Steps(rest, reference[1..]) && StepIs(s, EntryOf(reference[0]), rest[0])
    ensures Steps([s] + rest, reference)
  {
    var states := [s] + rest;
    forall i | 0 <= i < |reference| ensures StepIs(states[i], EntryOf(reference[i]), states[i + 1]) {
      if i > 0 { assert reference[i] == reference[1..][i - 1] && states[i] == rest[i - 1] && states[i + 1] == rest[i]; }
    }
  }

  lemma {:induction false} EntriesAt(s: seq<Diagnostic>, i: nat)
    requires i < |s|
    ensures Entries(s)[i] == EntryOf(s[i])
  {
    if i > 0 { EntriesAt(s[1..], i - 1); }
  }

  /** The comparison takes its steps in the order of the reference, from everything remaining and nothing
      classified; what remains in the end is extra, in its own order. */
  lemma ComparisonSteps(reference: seq<Diagnostic>, krusty: seq<Diagnostic>) returns (states: seq<State>)
    ensures Steps(states, reference) && states[0] == State(krusty, Classes([], [], [], [], []))
    ensures var (end, c) := (states[|reference|], Comparison(reference, krusty));
      && c == end.classes.(extra := c.extra) && |c.extra| == |end.remaining|
      && forall i :: 0 <= i < |c.extra| ==> c.extra[i] == EntryOf(end.remaining[i])
  {
    states := RunSteps(State(krusty, NONE), reference);
    var remaining := states[|reference|].remaining;
    forall i | 0 <= i < |remaining| ensures Entries(remaining)[i] == EntryOf(remaining[i]) {
      EntriesAt(remaining, i);
    }
  }

  // ---------------------------------------------------------------- agreement

  predicate NoDifference(c: Classes) { c.extra == [] && c.missing == [] && c.wording == [] && c.moved == [] }

  lemma {:induction false} BagHas(s: seq<Diagnostic>, e: Entry)
    ensures e in Bag(s) <==> exists d <- s :: EntryOf(d) == e
  {
    assert e in Bag(s) <==> e in Entries(s);
    if s != [] {
      BagHas(s[1..], e);
      assert e in Entries(s[1..]) <==> e in Bag(s[1..]);
      assert forall d :: d in s <==> d in s[1..] || d == s[0];
    }
  }

  /** A diagnostic with an equal on the other side is matched. */
  lemma MatchedWhenPresent(s: State, d: Diagnostic)
    requires EntryOf(d) in Bag(s.remaining)
    ensures var next := Classify(s, d);
      next.classes == s.classes.(matched := s.classes.matched + [EntryOf(d)])
      && Bag(next.remaining) + multiset{EntryOf(d)} == Bag(s.remaining)
  {
    BagHas(s.remaining, EntryOf(d));
    var other :| other in s.remaining && EntryOf(other) == EntryOf(d);
    var samePlace := SamePlace(s.remaining, KeyOf(d));
    assert other in samePlace;
    BagRemove(s.remaining, FirstSaying(samePlace, Normalize(d.message)).value);
  }

  lemma FrontMatched(s: State, reference: seq<Diagnostic>) returns (next: State)
    requires reference != [] && Bag(reference) <= Bag(s.remaining)
    ensures next == Classify(s, reference[0])
    ensures next.classes == s.classes.(matched := s.classes.matched + [EntryOf(reference[0])])
    ensures Bag(next.remaining) + multiset{EntryOf(reference[0])} == Bag(s.remaining)
    ensures Bag(reference[1..]) <= Bag(next.remaining)
  {
    BagPush(reference);
    FrontIn(Bag(s.remaining), EntryOf(reference[0]), Bag(reference[1..]));
    MatchedWhenPresent(s, reference[0]);
    next := Classify(s, reference[0]);
    FrontTaken(Bag(s.remaining), EntryOf(reference[0]), Bag(reference[1..]), Bag(next.remaining));
  }

  ghost predicate Exhausts(s: State, end: State, reference: seq<Diagnostic>)
  {
    && end.classes == s.classes.(matched := s.classes.matched + Entries(reference))
    && Bag(end.remaining) + Bag(reference) == Bag(s.remaining)
  }

  lemma ExhaustsFront(s: State, next: State, end: State, reference: seq<Diagnostic>)
    requires reference != [] && Exhausts(next, end, reference[1..])
    requires next.classes == s.classes.(matched := s.classes.matched + [EntryOf(reference[0])])
    requires Bag(next.remaining) + multiset{EntryOf(reference[0])} == Bag(s.remaining)
    ensures Exhausts(s, end, reference)
  {
    var e, rest := EntryOf(reference[0]), Entries(reference[1..]);
    BagPush(reference);
    BagRegroups(Bag(end.remaining), Bag(reference[1..]), e, Bag(next.remaining), Bag(s.remaining), Bag(reference));
    MatchedJoin(s.classes.matched, e, rest);
    assert Entries(reference) == [e] + rest;
  }

  lemma BagRegroups(
      end: multiset<Entry>, rest: multiset<Entry>, e: Entry, next: multiset<Entry>, all: multiset<Entry>,
      whole: multiset<Entry>)
    requires end + rest == next && next + multiset{e} == all && whole == multiset{e} + rest
    ensures end + whole == all
  {
  }

  lemma MatchedJoin(matched: seq<Entry>, e: Entry, rest: seq<Entry>)
    ensures matched + [e] + rest == matched + ([e] + rest)
  {
  }

  lemma {:induction false} AllMatched(s: State, reference: seq<Diagnostic>)
    requires Bag(reference) <= Bag(s.remaining)
    ensures Exhausts(s, ClassifyAll(s, reference), reference)
    decreases reference
  {
    if reference == [] {
      assert s.classes.matched + [] == s.classes.matched;
    } else {
      var next := FrontMatched(s, reference);
      AllMatched(next, reference[1..]);
      ExhaustsFront(s, next, ClassifyAll(next, reference[1..]), reference);
    }
  }

  lemma FrontIn(all: multiset<Entry>, e: Entry, rest: multiset<Entry>)
    requires multiset{e} + rest <= all
    ensures e in all
  {
    assert (multiset{e} + rest)[e] <= all[e];
  }

  lemma FrontTaken(all: multiset<Entry>, e: Entry, rest: multiset<Entry>, left: multiset<Entry>)
    requires multiset{e} + rest <= all && left + multiset{e} == all
    ensures rest <= left
  {
    forall x ensures rest[x] <= left[x] {
      assert (multiset{e} + rest)[x] <= all[x] == (left + multiset{e})[x];
    }
  }

  /** The four difference classes are all empty exactly when both sides hold the same diagnostics, counted by
      place and normalised text. */
  lemma NoDifferenceExactly(reference: seq<Diagnostic>, krusty: seq<Diagnostic>)
    ensures NoDifference(Comparison(reference, krusty)) <==> Bag(reference) == Bag(krusty)
  {
    var c := Comparison(reference, krusty);
    ComparisonConserves(reference, krusty);
    if Bag(reference) == Bag(krusty) {
      AllMatched(State(krusty, NONE), reference);
      var end := ClassifyAll(State(krusty, NONE), reference);
      assert |Bag(end.remaining)| == 0;
      assert |Entries(end.remaining)| == 0;
    }
  }

  // ---------------------------------------------------------------- lost matches

  /** What the next reference diagnostic takes from the remaining ones, if anything. */
  function Taken(s: State, expected: Diagnostic): (r: Option<Diagnostic>)
    ensures r.Some? ==> r.value in s.remaining
  {
    var (at, text) := EntryOf(expected);
    var samePlace := SamePlace(s.remaining, at);
    var exact := FirstSaying(samePlace, text);
    if exact.Some? then exact
    else if samePlace != [] then assert samePlace[0] in samePlace; Some(samePlace[0])
    else FirstSaying(s.remaining, text)
  }

  /** The next diagnostic takes one that says something else or stands elsewhere, and that the rest of the
      reference needs. */
  ghost predicate Steals(s: State, reference: seq<Diagnostic>)
    requires reference != []
  {
    var taken := Taken(s, reference[0]);
    taken.Some? && EntryOf(taken.value) != EntryOf(reference[0]) &&
    Bag(reference[1..])[EntryOf(taken.value)] >= Bag(s.remaining)[EntryOf(taken.value)]
  }

  /** How many steps of a run steal. */
  ghost function Thefts(s: State, reference: seq<Diagnostic>): nat
    decreases reference
  {
    if reference == [] then 0
    else (if Steals(s, reference) then 1 else 0) + Thefts(Classify(s, reference[0]), reference[1..])
  }

  /** One step: what it takes, and whether it matched. */
  lemma StepTakes(s: State, d: Diagnostic)
    ensures var (next, taken, e) := (Classify(s, d), Taken(s, d), EntryOf(d));
      && (taken.None? ==> next == s.(classes := s.classes.(missing := s.classes.missing + [e])))
      && (taken.Some? ==> Bag(next.remaining) + multiset{EntryOf(taken.value)} == Bag(s.remaining))
      && (taken.Some? && EntryOf(taken.value) == e ==> next.classes.matched == s.classes.matched + [e])
      && (taken.None? || EntryOf(taken.value) != e ==>
        next.classes.matched == s.classes.matched && e !in Bag(s.remaining))
      && (taken.Some? && EntryOf(taken.value) != e ==> Touches(e, EntryOf(taken.value)))
  {
    var (at, text) := EntryOf(d);
    var samePlace := SamePlace(s.remaining, at);
    var taken := Taken(s, d);
    BagHas(s.remaining, EntryOf(d));
    if taken.Some? {
      BagRemove(s.remaining, taken.value);
      assert samePlace != [] ==> samePlace[0] in samePlace;
    }
    if EntryOf(d) in Bag(s.remaining) {
      MatchedWhenPresent(s, d);
      var other :| other in s.remaining && EntryOf(other) == EntryOf(d);
      assert other in samePlace;
    }
  }

  /** Two different diagnostics at one place, or with one text. */
  predicate Touches(e: Entry, f: Entry) { e != f && (e.0 == f.0 || e.1 == f.1) }

  lemma MeetExact(rest: multiset<Entry>, left: multiset<Entry>, e: Entry)
    ensures |(rest + multiset{e}) * (left + multiset{e})| == |rest * left| + 1
  {
    assert (rest + multiset{e}) * (left + multiset{e}) == rest * left + multiset{e};
  }

  lemma MeetMissing(rest: multiset<Entry>, left: multiset<Entry>, e: Entry)
    requires e !in left
    ensures (rest + multiset{e}) * left == rest * left
  {
  }

  lemma MeetTaken(rest: multiset<Entry>, left: multiset<Entry>, g: Entry)
    ensures |rest * (left + multiset{g})| == |rest * left| + if rest[g] >= (left + multiset{g})[g] then 1 else 0
  {
    if rest[g] >= (left + multiset{g})[g] {
      assert rest * (left + multiset{g}) == rest * left + multiset{g};
    } else {
      assert rest * (left + multiset{g}) == rest * left;
    }
  }

  /** Every match that the two lists allow is made or stolen. */
  lemma {:induction false} MatchesAdd(s: State, reference: seq<Diagnostic>)
    ensures |ClassifyAll(s, reference).classes.matched| + Thefts(s, reference) ==
      |s.classes.matched| + |Bag(reference) * Bag(s.remaining)|
    decreases reference
  {
    if reference != [] {
      var next, rest, e := Classify(s, reference[0]), reference[1..], EntryOf(reference[0]);
      MatchesAdd(next, rest);
      BagPush(reference);
      MatchesStep(s, reference);
    }
  }

  lemma MatchesStep(s: State, reference: seq<Diagnostic>)
    requires reference != []
    ensures var next := Classify(s, reference[0]);
      |s.classes.matched| + |Bag(reference) * Bag(s.remaining)| ==
        |next.classes.matched| + |Bag(reference[1..]) * Bag(next.remaining)| + if Steals(s, reference) then 1 else 0
  {
    var next, rest, e := Classify(s, reference[0]), Bag(reference[1..]), EntryOf(reference[0]);
    var left := Bag(next.remaining);
    BagPush(reference);
    StepTakes(s, reference[0]);
    var taken := Taken(s, reference[0]);
    if taken.Some? && EntryOf(taken.value) == e {
      MeetExact(rest, left, e);
      assert Bag(s.remaining) == left + multiset{e} && Bag(reference) == rest + multiset{e};
    } else {
      MeetMissing(rest, Bag(s.remaining), e);
      assert Bag(reference) == rest + multiset{e};
      if taken.Some? { MeetTaken(rest, left, EntryOf(taken.value)); }
    }
  }

  /** Matches are common diagnostics. */
  lemma MatchedCommon(reference: seq<Diagnostic>, krusty: seq<Diagnostic>)
    ensures multiset(Comparison(reference, krusty).matched) <= Bag(reference) * Bag(krusty)
  {
    ComparisonConserves(reference, krusty);
  }

  lemma SameSize(a: multiset<Entry>, b: multiset<Entry>)
    requires a <= b
    ensures a == b <==> |a| == |b|
  {
    assert b == a + (b - a);
    assert |b - a| == 0 ==> b - a == multiset{};
  }

  /** The matches a comparison loses are the thefts of its run, one for one: it makes every match the two
      lists allow if and only if no step steals. */
  lemma MatchesExactly(reference: seq<Diagnostic>, krusty: seq<Diagnostic>)
    ensures |Comparison(reference, krusty).matched| + Thefts(State(krusty, NONE), reference) ==
      |Bag(reference) * Bag(krusty)|
    ensures multiset(Comparison(reference, krusty).matched) == Bag(reference) * Bag(krusty) <==>
      Thefts(State(krusty, NONE), reference) == 0
  {
    MatchesAdd(State(krusty, NONE), reference);
    MatchedCommon(reference, krusty);
    SameSize(multiset(Comparison(reference, krusty).matched), Bag(reference) * Bag(krusty));
  }

  /** No reference diagnostic beyond those krusty has shares its place or its text with another that both
      sides have. */
  ghost predicate NoRivals(reference: multiset<Entry>, krusty: multiset<Entry>)
  {
    forall e, f :: reference[e] > krusty[e] && f in reference && f in krusty ==> !Touches(e, f)
  }

  lemma RivalsStep(rest: multiset<Entry>, left: multiset<Entry>, e: Entry, g: Entry)
    requires NoRivals(rest + multiset{e}, left + multiset{g})
    requires e == g || (e !in left && e != g && Touches(e, g))
    ensures NoRivals(rest, left) && (e != g ==> g !in rest)
  {
    var reference, krusty := rest + multiset{e}, left + multiset{g};
    if e != g {
      assert reference[e] > krusty[e] && g in krusty;
    }
    forall x, y | rest[x] > left[x] && y in rest && y in left ensures !Touches(x, y) {
      assert y in reference && y in krusty && reference[x] > krusty[x];
    }
  }

  lemma RivalsMissing(rest: multiset<Entry>, left: multiset<Entry>, e: Entry)
    requires NoRivals(rest + multiset{e}, left)
    ensures NoRivals(rest, left)
  {
    forall x, y | rest[x] > left[x] && y in rest && y in left ensures !Touches(x, y) {
      assert (rest + multiset{e})[x] > left[x] && y in rest + multiset{e};
    }
  }

  /** Without rivals nothing is stolen, in whatever order. */
  lemma {:induction false} NoTheft(s: State, reference: seq<Diagnostic>)
    requires NoRivals(Bag(reference), Bag(s.remaining))
    ensures Thefts(s, reference) == 0
    decreases reference
  {
    if reference != [] {
      var next, e := Classify(s, reference[0]), EntryOf(reference[0]);
      var rest, left := Bag(reference[1..]), Bag(next.remaining);
      BagPush(reference);
      StepTakes(s, reference[0]);
      assert Bag(reference) == rest + multiset{e};
      var taken := Taken(s, reference[0]);
      if taken.Some? {
        RivalsStep(rest, left, e, EntryOf(taken.value));
      } else {
        RivalsMissing(rest, left, e);
      }
      NoTheft(next, reference[1..]);
    }
  }

  /** `longer` lists the reference in some order, with more of what krusty has too few of at most. */
  ghost predicate Repeats(reference: multiset<Entry>, krusty: multiset<Entry>, longer: multiset<Entry>)
  {
    reference <= longer && forall e :: longer[e] > reference[e] ==> reference[e] > krusty[e]
  }

  lemma RepeatsMeet(reference: multiset<Entry>, krusty: multiset<Entry>, longer: multiset<Entry>)
    requires Repeats(reference, krusty, longer)
    ensures longer * krusty == reference * krusty && (NoRivals(reference, krusty) ==> NoRivals(longer, krusty))
  {
    assert forall e :: (longer * krusty)[e] == (reference * krusty)[e];
    if NoRivals(reference, krusty) {
      forall e, f | longer[e] > krusty[e] && f in longer && f in krusty ensures !Touches(e, f) {
        assert reference[e] > krusty[e] && f in reference;
      }
    }
  }

  // ---------------------------------------------------------------- a rival in front

  /** Diagnostics of krusty that stand at the place of `e` or say the same. */
  function Near(s: seq<Diagnostic>, e: Entry): nat
  {
    if s == [] then 0 else Near(s[1..], e) + if EntryOf(s[0]).0 == e.0 || EntryOf(s[0]).1 == e.1 then 1 else 0
  }

  lemma {:induction s} NearMember(s: seq<Diagnostic>, e: Entry)
    ensures Near(s, e) <= |s|
    ensures Near(s, e) == 0 ==> forall d <- s :: EntryOf(d).0 != e.0 && EntryOf(d).1 != e.1
    ensures Near(s, e) > 0 ==> exists d <- s :: EntryOf(d).0 == e.0 || EntryOf(d).1 == e.1
  {
    if s != [] && Near(s, e) > 0 && Near(s[1..], e) > 0 {
      var d :| d in s[1..] && (EntryOf(d).0 == e.0 || EntryOf(d).1 == e.1);
      assert d in s;
    }
  }

  lemma {:induction false} NearRemove(s: seq<Diagnostic>, d: Diagnostic, e: Entry)
    requires d in s && (EntryOf(d).0 == e.0 || EntryOf(d).1 == e.1)
    ensures Near(Remove(s, d), e) == Near(s, e) - 1
  {
    if s[0] != d {
      NearRemove(s[1..], d, e);
      assert ([s[0]] + Remove(s[1..], d))[1..] == Remove(s[1..], d);
    }
  }

  /** One diagnostic takes something near it, as long as there is anything. */
  lemma NearTaken(s: State, d: Diagnostic)
    ensures var next := Classify(s, d);
      Near(next.remaining, EntryOf(d)) ==
        if Near(s.remaining, EntryOf(d)) == 0 then 0 else Near(s.remaining, EntryOf(d)) - 1
  {
    var e := EntryOf(d);
    NearMember(s.remaining, e);
    var samePlace := SamePlace(s.remaining, e.0);
    var taken := Taken(s, d);
    if taken.Some? {
      assert samePlace != [] ==> samePlace[0] in samePlace;
      NearRemove(s.remaining, taken.value, e);
    }
  }

  function Copies(d: Diagnostic, n: nat): (r: seq<Diagnostic>)
    ensures |r| == n
  {
    if n == 0 then [] else [d] + Copies(d, n - 1)
  }

  /** Enough copies of a diagnostic leave nothing near it. */
  lemma {:induction false} CopiesTakeAll(s: State, d: Diagnostic, n: nat)
    requires Near(s.remaining, EntryOf(d)) <= n
    ensures Near(ClassifyAll(s, Copies(d, n)).remaining, EntryOf(d)) == 0
    decreases n
  {
    if n > 0 {
      NearTaken(s, d);
      assert Copies(d, n)[1..] == Copies(d, n - 1);
      CopiesTakeAll(Classify(s, d), d, n - 1);
    }
  }

  lemma {:induction false} ClassifyConcat(s: State, front: seq<Diagnostic>, back: seq<Diagnostic>)
    ensures ClassifyAll(s, front + back) == ClassifyAll(ClassifyAll(s, front), back)
    decreases front
  {
    if front == [] {
      assert front + back == back;
    } else {
      assert (front + back)[1..] == front[1..] + back;
      ClassifyConcat(Classify(s, front[0]), front[1..], back);
    }
  }

  lemma {:induction false} CopiesBag(d: Diagnostic, n: nat, back: seq<Diagnostic>)
    ensures Bag(Copies(d, n) + back) == Bag(back)[EntryOf(d) := Bag(back)[EntryOf(d)] + n]
  {
    if n == 0 {
      assert Copies(d, n) + back == back;
    } else {
      var list := Copies(d, n) + back;
      assert list[1..] == Copies(d, n - 1) + back && list[0] == d;
      CopiesBag(d, n - 1, back);
      BagPush(list);
    }
  }

  /** What is not among the remaining diagnostics is not matched any more. */
  lemma {:induction false} GoneUnmatched(s: State, reference: seq<Diagnostic>, f: Entry)
    requires f !in Bag(s.remaining)
    ensures multiset(ClassifyAll(s, reference).classes.matched)[f] == multiset(s.classes.matched)[f]
    decreases reference
  {
    if reference != [] {
      StepTakes(s, reference[0]);
      GoneUnmatched(Classify(s, reference[0]), reference[1..], f);
    }
  }

  /** Copies of `e` match nothing but `e`. */
  lemma {:induction false} CopiesMatch(s: State, d: Diagnostic, n: nat, f: Entry)
    requires f != EntryOf(d)
    ensures multiset(ClassifyAll(s, Copies(d, n)).classes.matched)[f] == multiset(s.classes.matched)[f]
    decreases n
  {
    if n > 0 {
      StepTakes(s, d);
      assert Copies(d, n)[1..] == Copies(d, n - 1);
      CopiesMatch(Classify(s, d), d, n - 1, f);
    }
  }

  /** Enough copies of a rival in front take every chance of a match away. */
  lemma RivalTakes(reference: seq<Diagnostic>, krusty: seq<Diagnostic>, d: Diagnostic, f: Entry)
    requires Touches(EntryOf(d), f)
    ensures f !in multiset(Comparison(Copies(d, |krusty|) + reference, krusty).matched)
  {
    var start, front := State(krusty, NONE), Copies(d, |krusty|);
    var middle := ClassifyAll(start, front);
    NearMember(krusty, EntryOf(d));
    CopiesTakeAll(start, d, |krusty|);
    CopiesMatch(start, d, |krusty|, f);
    NearMember(middle.remaining, EntryOf(d));
    BagHas(middle.remaining, f);
    GoneUnmatched(middle, reference, f);
    ClassifyConcat(start, front, reference);
  }

  /** No match is ever lost. */
  ghost predicate NeverLost(reference: seq<Diagnostic>, krusty: seq<Diagnostic>)
  {
    forall longer, other {:trigger Comparison(longer, other)} ::
      Repeats(Bag(reference), Bag(krusty), Bag(longer)) && Bag(other) == Bag(krusty) ==>
        multiset(Comparison(longer, other).matched) == Bag(reference) * Bag(krusty)
  }

  /** However the two lists are ordered, and however often a diagnostic krusty has too few of is repeated,
      every match they allow is made: if and only if no such diagnostic has a rival. */
  lemma NeverLostExactly(reference: seq<Diagnostic>, krusty: seq<Diagnostic>)
    ensures NeverLost(reference, krusty) <==> NoRivals(Bag(reference), Bag(krusty))
  {
    if NoRivals(Bag(reference), Bag(krusty)) {
      forall longer, other | Repeats(Bag(reference), Bag(krusty), Bag(longer)) && Bag(other) == Bag(krusty)
        ensures multiset(Comparison(longer, other).matched) == Bag(reference) * Bag(krusty)
      {
        RepeatsMeet(Bag(reference), Bag(krusty), Bag(longer));
        NoTheft(State(other, NONE), longer);
        MatchesExactly(longer, other);
      }
    } else {
      var e, f :| Bag(reference)[e] > Bag(krusty)[e] && f in Bag(reference) && f in Bag(krusty) && Touches(e, f);
      RivalLoses(reference, krusty, e, f);
    }
  }

  lemma RepeatsOne(reference: multiset<Entry>, krusty: multiset<Entry>, e: Entry, n: nat)
    requires reference[e] > krusty[e]
    ensures Repeats(reference, krusty, reference[e := reference[e] + n])
  {
  }

  lemma RivalLoses(reference: seq<Diagnostic>, krusty: seq<Diagnostic>, e: Entry, f: Entry)
    requires Bag(reference)[e] > Bag(krusty)[e] && f in Bag(reference) && f in Bag(krusty) && Touches(e, f)
    ensures !NeverLost(reference, krusty)
  {
    BagHas(reference, e);
    var d :| d in reference && EntryOf(d) == e;
    var longer := Copies(d, |krusty|) + reference;
    CopiesBag(d, |krusty|, reference);
    RepeatsOne(Bag(reference), Bag(krusty), e, |krusty|);
    RivalTakes(reference, krusty, d, f);
    LostIn(reference, krusty, longer, f);
  }

  lemma LostIn(reference: seq<Diagnostic>, krusty: seq<Diagnostic>, longer: seq<Diagnostic>, f: Entry)
    requires Repeats(Bag(reference), Bag(krusty), Bag(longer)) && f in Bag(reference) && f in Bag(krusty)
    requires f !in multiset(Comparison(longer, krusty).matched)
    ensures !NeverLost(reference, krusty)
  {
    assert (Bag(reference) * Bag(krusty))[f] > 0;
  }

  /** Matching is greedy: a reference diagnostic that finds only another text at its place takes it, even when
      a later one would have matched it exactly. */
  lemma GreedyLosesMatch(a: Diagnostic, b: Diagnostic)
    requires KeyOf(a) == KeyOf(b) && Normalize(a.message) != Normalize(b.message)
    ensures Comparison([a, b], [b]).matched == []
    ensures Comparison([b, a], [b]).matched == [EntryOf(b)]
  {
    var start := State([b], NONE);
    OnlyOne(b, KeyOf(a));
    var first := Classify(start, a);
    assert first.remaining == [] && first.classes.matched == [];
    NothingLeft(first, [b]);
    var swapped := Classify(start, b);
    assert swapped.remaining == [] && swapped.classes.matched == [] + [EntryOf(b)];
    NothingLeft(swapped, [a]);
    assert [a, b][1..] == [b] && [b, a][1..] == [a];
  }

  lemma OnlyOne(d: Diagnostic, at: Key)
    requires KeyOf(d) == at
    ensures SamePlace([d], at) == [d] && Remove([d], d) == []
    ensures FirstSaying([d], Normalize(d.message)) == Some(d)
    ensures forall text :: text != Normalize(d.message) ==> FirstSaying([d], text) == None
  {
    assert [d][..0] == [];
  }

  lemma {:induction false} NothingLeft(s: State, reference: seq<Diagnostic>)
    requires s.remaining == []
    ensures ClassifyAll(s, reference).classes.matched == s.classes.matched
    decreases reference
  {
    if reference != [] {
      NothingLeft(Classify(s, reference[0]), reference[1..]);
    }
  }
}
