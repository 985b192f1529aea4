/** The catalogue of built-in operators: their order, arity, names and signs,
    and the sign matcher `identify` that recognises an operator sign in a
    piece of source text. */
module Ops {
  import opened Errors

  /** The 19 catalogue operators, one constructor per functional object. */
  datatype Fn =
    | Plus | Minus | Multiplies | Divides | Modulus | Negate
    | EqualTo | NotEqualTo | Greater | Less | GreaterEqual | LessEqual
    | LogicalAnd | LogicalOr | LogicalNot
    | BitAnd | BitOr | BitXor | BitNot

  /** The catalogue in declaration order; `identify` tries signs in this order. */
  const Catalogue: seq<Fn> := [
    Plus, Minus, Multiplies, Divides, Modulus, Negate,
    EqualTo, NotEqualTo, Greater, Less, GreaterEqual, LessEqual,
    LogicalAnd, LogicalOr, LogicalNot,
    BitAnd, BitOr, BitXor, BitNot ]

  /** Maximal number of operands the operator takes; selects Unary or Binary nodes. */
  function Arity(fn: Fn): nat
  {
    match fn
    case Negate | LogicalNot | BitNot => 1
    case _ => 2
  }

  type UnaryFn = fn: Fn | Arity(fn) == 1 witness Negate
  type BinaryFn = fn: Fn | Arity(fn) == 2 witness Plus

  function Name(fn: Fn): string
  {
    match fn
    case Plus => "plus"
    case Minus => "minus"
    case Multiplies => "multiplies"
    case Divides => "divides"
    case Modulus => "modulus"
    case Negate => "negate"
    case EqualTo => "equal_to"
    case NotEqualTo => "not_equal_to"
    case Greater => "greater"
    case Less => "less"
    case GreaterEqual => "greater_equal"
    case LessEqual => "less_equal"
    case LogicalAnd => "logical_and"
    case LogicalOr => "logical_or"
    case LogicalNot => "logical_not"
    case BitAnd => "bit_and"
    case BitOr => "bit_or"
    case BitXor => "bit_xor"
    case BitNot => "bit_not"
  }

  function Sign(fn: Fn): string
  {
    match fn
    case Plus => "+"
    case Minus => "-"
    case Multiplies => "*"
    case Divides => "/"
    case Modulus => "%"
    case Negate => "-"
    case EqualTo => "=="
    case NotEqualTo => "!="
    case Greater => ">"
    case Less => "<"
    case GreaterEqual => ">="
    case LessEqual => "<="
    case LogicalAnd => "&&"
    case LogicalOr => "||"
    case LogicalNot => "!"
    case BitAnd => "&"
    case BitOr => "|"
    case BitXor => "^"
    case BitNot => "~"
  }

  /** The catalogue is closed and duplicate-free: every operator appears exactly once. */
  lemma CatalogueIsClosed()
    ensures |Catalogue| == 19
    ensures forall fn: Fn :: fn in Catalogue
    ensures forall i, j :: 0 <= i < j < |Catalogue| ==> Catalogue[i] != Catalogue[j]
  {
    forall fn: Fn
      ensures fn in Catalogue
    {
      assert Catalogue[CatalogueIndex(fn)] == fn;
    }
  }

  /** Exactly negate, logical_not and bit_not are unary; the other 16 are binary. */
  lemma ArityPartition()
    ensures forall fn: Fn :: Arity(fn) == 1 <==> fn == Negate || fn == LogicalNot || fn == BitNot
    ensures forall fn: Fn :: Arity(fn) == 1 || Arity(fn) == 2
    ensures forall i :: 0 <= i < |Catalogue| ==> (Arity(Catalogue[i]) == 1 <==> i == 5 || i == 14 || i == 18)
  {
  }

  /** `CatalogueIndex` inverts indexing into the catalogue. */
  lemma CatalogueIndexInverse(i: nat)
    requires i < |Catalogue|
    ensures CatalogueIndex(Catalogue[i]) == i
  {
    CatalogueIsClosed();
  }

  /** Position of each operator in the catalogue. */
  function CatalogueIndex(fn: Fn): (i: nat)
    ensures i < |Catalogue| && Catalogue[i] == fn
  {
    match fn
    case Plus => 0
    case Minus => 1
    case Multiplies => 2
    case Divides => 3
    case Modulus => 4
    case Negate => 5
    case EqualTo => 6
    case NotEqualTo => 7
    case Greater => 8
    case Less => 9
    case GreaterEqual => 10
    case LessEqual => 11
    case LogicalAnd => 12
    case LogicalOr => 13
    case LogicalNot => 14
    case BitAnd => 15
    case BitOr => 16
    case BitXor => 17
    case BitNot => 18
  }

  /** Longest sign among `fns`, computed as `identify` does before matching. */
  function MaxSignLength(fns: seq<Fn>): (r: nat)
    ensures forall i :: 0 <= i < |fns| ==> |Sign(fns[i])| <= r
    ensures fns != [] ==> exists i :: 0 <= i < |fns| && |Sign(fns[i])| == r
  {
    if fns == [] then 0
    else
      var rest := MaxSignLength(fns[1..]);
      if |Sign(fns[0])| >= rest then |Sign(fns[0])| else rest
  }

  /** `signmax`, the length of the longest catalogue sign. */
  const SignMax: nat := 2

  lemma SignMaxIsLongestSign()
    ensures MaxSignLength(Catalogue) == SignMax
  {
    assert forall fn: Fn :: |Sign(fn)| <= 2;
    assert |Sign(Catalogue[6])| == 2;
  }

  // ---------------------------------------------------------------------
  // Substring search (std::string_view::find)

  predicate OccursAt(hay: string, needle: string, k: nat)
  {
    k + |needle| <= |hay| && hay[k..k + |needle|] == needle
  }

  /** First position at or after `from` where `needle` occurs in `hay`. */
  function FindFrom(hay: string, needle: string, from: nat): (r: Option<nat>)
    ensures r.Some? ==> from <= r.value && OccursAt(hay, needle, r.value)
    ensures r.Some? ==> forall j :: from <= j < r.value ==> !OccursAt(hay, needle, j)
    ensures r.None? ==> forall j :: from <= j ==> !OccursAt(hay, needle, j)
    decreases |hay| - from
  {
    if from + |needle| > |hay| then None
    else if hay[from..from + |needle|] == needle then Some(from)
    else FindFrom(hay, needle, from + 1)
  }

  /** First position where `needle` occurs in `hay`, or None. */
  function Find(hay: string, needle: string): Option<nat>
  {
    FindFrom(hay, needle, 0)
  }

  // ---------------------------------------------------------------------
  // identify

  /** Number of leading space characters (`find_first_not_of(" ")`, capped at the length). */
  function LeadingSpaces(s: string): (n: nat)
    ensures n <= |s|
    ensures forall i :: 0 <= i < n ==> s[i] == ' '
    ensures n < |s| ==> s[n] != ' '
  {
    if s == [] || s[0] != ' ' then 0 else 1 + LeadingSpaces(s[1..])
  }

  /** The text `identify` searches, and where it starts in `source`: when `pos`
      is inside the source, at most `signmax` characters after `pos` and its
      leading spaces; otherwise the whole source. */
  function Window(source: string, pos: nat): (w: (string, nat))
    ensures w.1 + |w.0| <= |source|
    ensures source[w.1..w.1 + |w.0|] == w.0
    ensures pos < |source| ==> pos <= w.1 && |w.0| <= SignMax
    ensures pos < |source| ==> forall i :: pos <= i < w.1 ==> source[i] == ' '
    ensures pos >= |source| ==> w == (source, 0)
  {
    if pos < |source| then
      var rest := source[pos..];
      var lead := LeadingSpaces(rest);
      var trimmed := rest[lead..];
      var len := if |trimmed| < SignMax then |trimmed| else SignMax;
      assert source[pos + lead..pos + lead + len] == trimmed[..len];
      (trimmed[..len], pos + lead)
    else (source, 0)
  }

  /** Index (at or after `from`) of the first operator of `fns` whose sign
      occurs in `w`, together with the position of that sign in `w`. */
  function FirstMatchFrom<T>(w: string, fns: seq<T>, sign: T -> string, from: nat): (r: Option<(nat, nat)>)
    requires from <= |fns|
    ensures r.Some? ==> from <= r.value.0 < |fns|
    decreases |fns| - from
  {
    if from == |fns| then None
    else match Find(w, sign(fns[from]))
      case Some(k) => Some((from, k))
      case None => FirstMatchFrom(w, fns, sign, from + 1)
  }

  /** The match found is the first operator from `from` on whose sign occurs
      in `w`, with the position of that sign; no match means no sign from
      `from` on occurs. */
  lemma {:induction false} FirstMatchCorrect<T>(w: string, fns: seq<T>, sign: T -> string, from: nat)
    requires from <= |fns|
    ensures var r := FirstMatchFrom(w, fns, sign, from);
      r.Some? ==> Find(w, sign(fns[r.value.0])) == Some(r.value.1)
    ensures var r := FirstMatchFrom(w, fns, sign, from);
      r.Some? ==> forall j :: from <= j < r.value.0 ==> Find(w, sign(fns[j])).None?
    ensures var r := FirstMatchFrom(w, fns, sign, from);
      r.None? ==> forall j :: from <= j < |fns| ==> Find(w, sign(fns[j])).None?
    decreases |fns| - from
  {
    if from < |fns| && Find(w, sign(fns[from])).None? {
      FirstMatchCorrect(w, fns, sign, from + 1);
    }
  }

  /** `identify` as written: signs are tried in catalogue order, the first one
      that occurs anywhere in the window wins, and the new position is the end
      of that sign measured from the start of the window. */
  function Identify(source: string, pos: nat): (r: (Option<Fn>, nat))
    ensures var w := Window(source, pos).0;
      r.0.None? ==> r.1 == pos && forall i :: 0 <= i < |Catalogue| ==> Find(w, Sign(Catalogue[i])).None?
    ensures var w := Window(source, pos).0;
      r.0.Some? ==>
        && Find(w, Sign(r.0.value)).Some?
        && r.1 == Find(w, Sign(r.0.value)).value + |Sign(r.0.value)|
        && forall i :: 0 <= i < CatalogueIndex(r.0.value) ==> Find(w, Sign(Catalogue[i])).None?
  {
    var w := Window(source, pos).0;
    FirstMatchCorrect(w, Catalogue, Sign, 0);
    match FirstMatchFrom(w, Catalogue, Sign, 0)
    case None => (None, pos)
    case Some((i, start)) =>
      CatalogueIndexInverse(i);
      (Some(Catalogue[i]), start + |Sign(Catalogue[i])|)
  }

  /** Nothing is identified exactly when no operator sign occurs in the window. */
  lemma IdentifyNoneIffNoSign(source: string, pos: nat)
    ensures Identify(source, pos).0.None? <==> forall fn: Fn :: Find(Window(source, pos).0, Sign(fn)).None?
  {
    var w := Window(source, pos).0;
    if Identify(source, pos).0.None? {
      forall fn: Fn
        ensures Find(w, Sign(fn)).None?
      {
        assert Catalogue[CatalogueIndex(fn)] == fn;
      }
    }
  }

  /** A one-character sign not among the characters of `w` is not found. */
  lemma CharAbsent(w: string, c: char)
    requires forall k :: 0 <= k < |w| ==> w[k] != c
    ensures Find(w, [c]).None?
  {
    forall k: nat | k + 1 <= |w|
      ensures !OccursAt(w, [c], k)
    {
      assert w[k..k + 1][0] == w[k];
    }
  }

  /** A sign that occurs at the very start of `w` is found there. */
  lemma FoundAtStart(w: string, s: string)
    requires OccursAt(w, s, 0)
    ensures Find(w, s) == Some(0)
  {
  }

  // The window as a concrete string, one unfolding at a time.
  lemma WindowOfPlus()
    ensures Window("a + b", 1) == ("+ ", 2)
  {
    var rest := "a + b"[1..];
    assert rest == " + b";
    assert rest[0] == ' ' && rest[1..] == "+ b";
    assert LeadingSpaces("+ b") == 0;
    assert LeadingSpaces(rest) == 1;
    assert rest[1..][..2] == "+ ";
  }

  lemma WindowOfGreaterEqual()
    ensures Window(">=", 0) == (">=", 0)
  {
    var rest := ">="[0..];
    assert rest == ">=";
    assert LeadingSpaces(rest) == 0;
    assert rest[0..][..2] == ">=";
  }

  /** In ">=", none of the first eight catalogue signs occurs and `>` occurs first. */
  lemma SignsInGreaterEqual()
    ensures forall i :: 0 <= i < 8 ==> Find(">=", Sign(Catalogue[i])).None?
    ensures Find(">=", ">") == Some(0)
    ensures Find(">=", "==").None? && Find(">=", "!=").None? && Find(">=", ">=") == Some(0)
  {
    var w := ">=";
    CharAbsent(w, '+');
    CharAbsent(w, '-');
    CharAbsent(w, '*');
    CharAbsent(w, '/');
    CharAbsent(w, '%');
    assert Find(w, "==").None? by { assert !OccursAt(w, "==", 0); }
    assert Find(w, "!=").None? by { assert !OccursAt(w, "!=", 0); }
    FoundAtStart(w, ">");
    FoundAtStart(w, ">=");
  }

  /** The first match is at index `k` when the sign of `fns[k]` is found and
      none before it is. */
  lemma {:induction false} FirstMatchIs<T>(w: string, fns: seq<T>, sign: T -> string, k: nat, start: nat, from: nat)
    requires from <= k < |fns| && Find(w, sign(fns[k])) == Some(start)
    requires forall j :: from <= j < k ==> Find(w, sign(fns[j])).None?
    ensures FirstMatchFrom(w, fns, sign, from) == Some((k, start))
    decreases k - from
  {
    if from < k {
      FirstMatchIs(w, fns, sign, k, start, from + 1);
    }
  }

  /** `>=` is reported as `greater`: the one-character sign `>` comes before
      `>=` in the catalogue and occurs in the window. */
  lemma IdentifyGreaterEqualAsGreater()
    ensures Identify(">=", 0) == (Some(Greater), 1)
  {
    WindowOfGreaterEqual();
    SignsInGreaterEqual();
    FirstMatchIs(">=", Catalogue, Sign, 8, 0, 0);
  }

  /** The position `identify` reports is relative to the window, not to the
      source: in "a + b" from position 1 the sign `+` sits at index 2, but the
      reported position 1 points at the space before it. */
  lemma IdentifyPositionIsWindowRelative()
    ensures Identify("a + b", 1) == (Some(Plus), 1)
    ensures "a + b"[2] == '+' && "a + b"[1] == ' '
  {
    WindowOfPlus();
    assert OccursAt("+ ", "+", 0);
    assert FirstMatchFrom("+ ", Catalogue, Sign, 0) == Some((0, 0));
  }

  /** Signs ordered longest first, each length group in catalogue order. */
  const MunchOrder: seq<Fn> := [
    EqualTo, NotEqualTo, GreaterEqual, LessEqual, LogicalAnd, LogicalOr,
    Plus, Minus, Multiplies, Divides, Modulus, Negate, Greater, Less,
    LogicalNot, BitAnd, BitOr, BitXor, BitNot ]

  function MunchIndex(fn: Fn): (i: nat)
    ensures i < |MunchOrder| && MunchOrder[i] == fn
    ensures i < 6 <==> |Sign(fn)| == 2
  {
    match fn
    case EqualTo => 0
    case NotEqualTo => 1
    case GreaterEqual => 2
    case LessEqual => 3
    case LogicalAnd => 4
    case LogicalOr => 5
    case Plus => 6
    case Minus => 7
    case Multiplies => 8
    case Divides => 9
    case Modulus => 10
    case Negate => 11
    case Greater => 12
    case Less => 13
    case LogicalNot => 14
    case BitAnd => 15
    case BitOr => 16
    case BitXor => 17
    case BitNot => 18
  }

  /** `identify` as its documentation describes it: the longest sign found in
      the window wins, and the position moves past that sign in `source`. */
  function IdentifyFixed(source: string, pos: nat): (r: (Option<Fn>, nat))
  {
    IdentifyIn(source, pos, MunchOrder, Sign)
  }

  /** The corrected search over any list of candidates and their signs: the
      first candidate whose sign occurs in the window wins, and the position
      moves past that sign in `source`. */
  function IdentifyIn<T>(source: string, pos: nat, fns: seq<T>, sign: T -> string): (r: (Option<T>, nat))
  {
    var window := Window(source, pos);
    var m := FirstMatchFrom(window.0, fns, sign, 0);
    if m.None? then (None, pos)
    else
      var fn := fns[m.value.0];
      (Some(fn), window.1 + m.value.1 + |sign(fn)|)
  }

  /** `MunchIndex` inverts indexing into `MunchOrder`. */
  lemma MunchIndexInverse(i: nat)
    requires i < |MunchOrder|
    ensures MunchIndex(MunchOrder[i]) == i
  {
  }

  /** Every sign has one or two characters. */
  lemma SignLength(fn: Fn)
    ensures 1 <= |Sign(fn)| <= SignMax
  {
  }

  /** An occurrence inside a slice is an occurrence in the whole text. */
  lemma OccursInSlice(source: string, offset: nat, w: string, s: string, k: nat)
    requires offset + |w| <= |source| && source[offset..offset + |w|] == w
    requires OccursAt(w, s, k)
    ensures OccursAt(source, s, offset + k)
  {
    forall j | 0 <= j < |s|
      ensures source[offset + k..offset + k + |s|][j] == s[j]
    {
      assert source[offset..offset + |w|][k + j] == w[k + j];
      assert w[k..k + |s|][j] == s[j];
    }
  }

  /** The corrected `identify` leaves the position just past the sign it
      reports, inside the source and at or after `pos`. */
  lemma IdentifyFixedEndsPastSign(source: string, pos: nat)
    ensures var r := IdentifyFixed(source, pos);
      r.0.Some? ==>
        |Sign(r.0.value)| <= r.1 && OccursAt(source, Sign(r.0.value), r.1 - |Sign(r.0.value)|)
        && (pos < |source| ==> pos <= r.1 - |Sign(r.0.value)|)
    ensures var r := IdentifyFixed(source, pos);
      r.0.None? ==> r.1 == pos
  {
    IdentifyInEndsPastSign(source, pos, MunchOrder, Sign);
  }

  lemma IdentifyInEndsPastSign<T>(source: string, pos: nat, fns: seq<T>, sign: T -> string)
    ensures var r := IdentifyIn(source, pos, fns, sign);
      r.0.Some? ==>
        |sign(r.0.value)| <= r.1 && OccursAt(source, sign(r.0.value), r.1 - |sign(r.0.value)|)
        && (pos < |source| ==> pos <= r.1 - |sign(r.0.value)|)
    ensures var r := IdentifyIn(source, pos, fns, sign);
      r.0.None? ==> r.1 == pos
  {
    var window := Window(source, pos);
    var m := FirstMatchFrom(window.0, fns, sign, 0);
    var r := IdentifyIn(source, pos, fns, sign);
    FirstMatchCorrect(window.0, fns, sign, 0);
    if m.Some? {
      var fn := fns[m.value.0];
      var s := sign(fn);
      assert r == (Some(fn), window.1 + m.value.1 + |s|);
      FoundOccurs(window.0, s, m.value.1);
      OccursInSlice(source, window.1, window.0, s, m.value.1);
    }
  }

  /** What `Find` reports is an occurrence. */
  lemma FoundOccurs(w: string, s: string, k: nat)
    requires Find(w, s) == Some(k)
    ensures OccursAt(w, s, k)
  {
  }

  /** The corrected `identify` munches maximally: when it reports a one-character
      sign, no two-character sign occurs in the window; and it reports nothing
      exactly when no sign occurs in the window. */
  lemma IdentifyFixedIsLongest(source: string, pos: nat)
    ensures var r := IdentifyFixed(source, pos);
      r.0.Some? ==> forall fn: Fn :: |Sign(fn)| > |Sign(r.0.value)| ==> Find(Window(source, pos).0, Sign(fn)).None?
    ensures IdentifyFixed(source, pos).0.None? <==> forall fn: Fn :: Find(Window(source, pos).0, Sign(fn)).None?
  {
    var w := Window(source, pos).0;
    var m := FirstMatchFrom(w, MunchOrder, Sign, 0);
    FirstMatchCorrect(w, MunchOrder, Sign, 0);
    if m.Some? {
      var i := m.value.0;
      var fn := MunchOrder[i];
      MunchIndexInverse(i);
      forall g: Fn | |Sign(g)| > |Sign(fn)|
        ensures Find(w, Sign(g)).None?
      {
        SignLength(g);
        SignLength(fn);
        assert MunchIndex(g) < 6 <= MunchIndex(fn);
      }
    } else {
      forall g: Fn
        ensures Find(w, Sign(g)).None?
      {
        assert MunchOrder[MunchIndex(g)] == g;
      }
    }
  }

  /** The corrected `identify` reports `>=` as `greater_equal`, past its two characters. */
  lemma IdentifyFixedGreaterEqual()
    ensures IdentifyFixed(">=", 0) == (Some(GreaterEqual), 2)
  {
    WindowOfGreaterEqual();
    SignsInGreaterEqual();
    FirstMatchIs(">=", MunchOrder, Sign, 2, 0, 0);
  }

  /** In "+ " no two-character sign occurs and `+` occurs first. */
  lemma SignsInPlusSpace()
    ensures forall i :: 0 <= i < 6 ==> Find("+ ", Sign(MunchOrder[i])).None?
    ensures Find("+ ", "+") == Some(0)
  {
    var w := "+ ";
    forall i | 0 <= i < 6
      ensures Find(w, Sign(MunchOrder[i])).None?
    {
      assert w[0] != Sign(MunchOrder[i])[0];
      assert !OccursAt(w, Sign(MunchOrder[i]), 0);
    }
    FoundAtStart(w, "+");
  }

  /** The corrected `identify` on "a + b" from position 1 ends just past the `+`. */
  lemma IdentifyFixedPosition()
    ensures IdentifyFixed("a + b", 1) == (Some(Plus), 3)
  {
    WindowOfPlus();
    SignsInPlusSpace();
    FirstMatchIs("+ ", MunchOrder, Sign, 6, 0, 0);
  }
}
