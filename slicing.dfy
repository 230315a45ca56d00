/**
 * The `--slice START:STOP:STEP` option of viewdf (viewdf.py:127-147):
 * the range text is split on ':', every non-empty field is read as an
 * integer, one to three fields become a Python `slice` object, and that
 * slice is applied positionally to the rows with `iloc`, which follows
 * the slicing rules of Python sequences (bounds defaulting by the sign of
 * the step, negative bounds counted from the end, clamping, a zero step
 * rejected).
 */
module Slicing {
  import opened Wrappers

  /** The three optional bounds of a Python `slice` object. */
  datatype SliceSpec = SliceSpec(start: Option<int>, stop: Option<int>, step: Option<int>)

  /** Every way the slice branch of the program can fail; each ends the run with exit code 5. */
  datatype SliceError =
    | BadField(index: nat, field: string)  // int() rejected a non-empty field
    | TooManyFields(count: nat)            // more than start:stop:step
    | ZeroStep                             // iloc refuses a step of 0

  // ---------------------------------------------------------------------
  // Splitting on a separator (Python's str.split with an explicit separator)
  // ---------------------------------------------------------------------

  /** Number of occurrences of `c` in `s`. */
  function Occurrences(s: string, c: char): nat
  {
    if s == [] then 0 else (if s[0] == c then 1 else 0) + Occurrences(s[1..], c)
  }

  /** The pieces of `s` between occurrences of `sep`; never an empty list. */
  function Split(s: string, sep: char): (r: seq<string>)
    ensures |r| == Occurrences(s, sep) + 1
    ensures forall i :: 0 <= i < |r| ==> sep !in r[i]
  {
    if s == [] then [""]
    else
      var rest := Split(s[1..], sep);
      if s[0] == sep then [""] + rest
      else [[s[0]] + rest[0]] + rest[1..]
  }

  /** The inverse of Split: the pieces glued back together with `sep`. */
  function Join(pieces: seq<string>, sep: char): string
    requires |pieces| >= 1
  {
    if |pieces| == 1 then pieces[0] else pieces[0] + [sep] + Join(pieces[1..], sep)
  }

  /** Splitting loses nothing: the pieces join back to the original text. */
  lemma {:induction false} JoinSplit(s: string, sep: char)
    ensures Join(Split(s, sep), sep) == s
  {
    if s != [] {
      JoinSplit(s[1..], sep);
      var rest := Split(s[1..], sep);
      if s[0] != sep {
        var r := Split(s, sep);
        assert r[0] == [s[0]] + rest[0] && r[1..] == rest[1..];
        if |rest| == 1 {
          assert Join(r, sep) == [s[0]] + rest[0];
        } else {
          assert Join(r, sep) == [s[0]] + rest[0] + [sep] + Join(rest[1..], sep);
        }
      }
    }
  }

  /** Pieces free of the separator are recovered exactly by splitting their join. */
  lemma {:induction false} SplitJoin(pieces: seq<string>, sep: char)
    requires |pieces| >= 1
    requires forall i :: 0 <= i < |pieces| ==> sep !in pieces[i]
    ensures Split(Join(pieces, sep), sep) == pieces
  {
    if |pieces| == 1 {
      SplitPlain(pieces[0], sep);
    } else {
      SplitJoin(pieces[1..], sep);
      SplitPrefix(pieces[0], Join(pieces[1..], sep), sep);
      assert pieces == [pieces[0]] + pieces[1..];
    }
  }

  /** A text without the separator splits into itself alone. */
  lemma {:induction false} SplitPlain(s: string, sep: char)
    requires sep !in s
    ensures Split(s, sep) == [s]
  {
    if s != [] {
      SplitPlain(s[1..], sep);
      assert s == [s[0]] + s[1..];
    }
  }

  /** A separator-free prefix followed by the separator opens a new first piece. */
  lemma {:induction false} SplitPrefix(p: string, t: string, sep: char)
    requires sep !in p
    ensures Split(p + [sep] + t, sep) == [p] + Split(t, sep)
  {
    if p == [] {
      assert p + [sep] + t == [sep] + t;
      assert ([sep] + t)[1..] == t;
    } else {
      SplitPrefix(p[1..], t, sep);
      assert (p + [sep] + t)[1..] == p[1..] + [sep] + t;
      assert p == [p[0]] + p[1..];
    }
  }

  // ---------------------------------------------------------------------
  // Integer fields (Python's int() on a string)
  // ---------------------------------------------------------------------

  predicate IsDigit(c: char) { '0' <= c <= '9' }

  predicate AllDigits(s: string) { forall i :: 0 <= i < |s| ==> IsDigit(s[i]) }

  /** Decimal value of a digit string, most significant digit first. */
  function DigitsValue(s: string): nat
    requires AllDigits(s)
  {
    if s == [] then 0 else 10 * DigitsValue(s[..|s| - 1]) + (s[|s| - 1] - '0') as nat
  }

  /** The integer a field denotes: an optional sign followed by at least one decimal digit. */
  function ParseInt(s: string): Option<int>
  {
    if |s| > 0 && (s[0] == '-' || s[0] == '+') then
      var digits := s[1..];
      if digits != [] && AllDigits(digits) then
        Some(if s[0] == '-' then -(DigitsValue(digits) as int) else DigitsValue(digits))
      else None
    else if s != [] && AllDigits(s) then Some(DigitsValue(s))
    else None
  }

  /** Canonical decimal text of a natural number. */
  function ShowNat(n: nat): (s: string)
    ensures s != [] && AllDigits(s)
  {
    if n < 10 then [('0' as int + n) as char]
    else ShowNat(n / 10) + [('0' as int + n % 10) as char]
  }

  /** Canonical decimal text of an integer, with '-' for negatives. */
  function ShowInt(k: int): (s: string)
    ensures ':' !in s
  {
    if k < 0 then "-" + ShowNat(-k) else ShowNat(k)
  }

  lemma {:induction false} DigitsOfShowNat(n: nat)
    ensures DigitsValue(ShowNat(n)) == n
  {
    if n >= 10 {
      DigitsOfShowNat(n / 10);
      var s := ShowNat(n);
      assert s[..|s| - 1] == ShowNat(n / 10);
    }
  }

  /** Reading back the text of any integer yields that integer. */
  lemma ParseShowInt(k: int)
    ensures ParseInt(ShowInt(k)) == Some(k)
  {
    var s := ShowInt(k);
    if k < 0 {
      DigitsOfShowNat(-k);
      assert s[0] == '-' && s[1..] == ShowNat(-k);
    } else {
      DigitsOfShowNat(k);
      assert s == ShowNat(k) && s[0] != '-' && s[0] != '+';
    }
  }

  // ---------------------------------------------------------------------
  // From text to SliceSpec
  // ---------------------------------------------------------------------

  /** A field is well formed when it is empty (absent) or an integer. */
  predicate FieldOk(field: string) { field == [] || ParseInt(field).Some? }

  /** The bound a well-formed field stands for: empty means absent. */
  function FieldValue(field: string): Option<int>
    requires FieldOk(field)
  {
    if field == [] then None else ParseInt(field)
  }

  /**
   * The list comprehension over the fields: every field converted in order,
   * or the first field that int() rejects. `offset` is the position of
   * `fields[0]` in the whole list.
   */
  function ParseFields(fields: seq<string>, offset: nat): (r: Result<seq<Option<int>>, SliceError>)
    ensures r.Success? ==> |r.value| == |fields|
    ensures r.Success? <==> forall i :: 0 <= i < |fields| ==> FieldOk(fields[i])
    ensures r.Success? ==> forall i :: 0 <= i < |fields| ==> r.value[i] == FieldValue(fields[i])
    ensures r.Failure? ==>
              && r.error.BadField?
              && offset <= r.error.index < offset + |fields|
              && r.error.field == fields[r.error.index - offset]
              && !FieldOk(r.error.field)
              && forall i :: 0 <= i < r.error.index - offset ==> FieldOk(fields[i])
  {
    if fields == [] then Success([])
    else if !FieldOk(fields[0]) then Failure(BadField(offset, fields[0]))
    else
      match ParseFields(fields[1..], offset + 1)
      case Failure(e) => Failure(e)
      case Success(rest) => Success([FieldValue(fields[0])] + rest)
  }

  /** The slice object built from the range text, or the error the program reports. */
  function ParseSlice(text: string): Result<SliceSpec, SliceError>
  {
    match ParseFields(Split(text, ':'), 0)
    case Failure(e) => Failure(e)
    case Success(parts) =>
      if |parts| == 1 then Success(SliceSpec(None, parts[0], None))
      else if |parts| == 2 then Success(SliceSpec(parts[0], parts[1], None))
      else if |parts| == 3 then Success(SliceSpec(parts[0], parts[1], parts[2]))
      else Failure(TooManyFields(|parts|))
  }

  /** Canonical text of one bound: empty when absent. */
  function ShowField(b: Option<int>): (s: string)
    ensures ':' !in s
  {
    match b
    case None => ""
    case Some(k) => ShowInt(k)
  }

  /** Canonical three-field text `start:stop:step` of a slice. */
  function ShowSlice(sp: SliceSpec): string
  {
    Join([ShowField(sp.start), ShowField(sp.stop), ShowField(sp.step)], ':')
  }

  lemma ShowFieldRoundTrip(b: Option<int>)
    ensures FieldOk(ShowField(b)) && FieldValue(ShowField(b)) == b
  {
    if b.Some? {
      ParseShowInt(b.value);
      assert ShowInt(b.value) != [] by {
        if b.value < 0 { } else { }
      }
    }
  }

  /** Every slice is recovered from its canonical text. */
  lemma ParseShowSlice(sp: SliceSpec)
    ensures ParseSlice(ShowSlice(sp)) == Success(sp)
  {
    var pieces := [ShowField(sp.start), ShowField(sp.stop), ShowField(sp.step)];
    SplitJoin(pieces, ':');
    ShowFieldRoundTrip(sp.start);
    ShowFieldRoundTrip(sp.stop);
    ShowFieldRoundTrip(sp.step);
  }

  /** More than two ':' in the text is always an error, whatever the fields hold. */
  lemma TooManyColonsFails(text: string)
    requires Occurrences(text, ':') >= 3
    ensures ParseSlice(text).Failure?
    ensures ParseSlice(text).error.TooManyFields? || ParseSlice(text).error.BadField?
  {
  }

  /**
   * What parsing accepts: at most three fields, each empty or an integer;
   * a bad field is reported before the field count is looked at. On
   * success the fields fill the slice from the right: one field is the stop,
   * two are start and stop, three are start, stop and step.
   */
  lemma ParseSliceOutcome(text: string)
    ensures var fields := Split(text, ':');
      && (ParseSlice(text).Success? <==>
            |fields| <= 3 && forall i :: 0 <= i < |fields| ==> FieldOk(fields[i]))
      && (ParseSlice(text).Failure? && ParseSlice(text).error.TooManyFields? <==>
            |fields| > 3 && forall i :: 0 <= i < |fields| ==> FieldOk(fields[i]))
      && (ParseSlice(text).Success? ==>
            var sp := ParseSlice(text).value;
            && sp.stop == FieldValue(fields[if |fields| == 1 then 0 else 1])
            && sp.start == (if |fields| == 1 then None else FieldValue(fields[0]))
            && sp.step == (if |fields| == 3 then FieldValue(fields[2]) else None))
  {
  }

  /** A single non-negative number is the exclusive stop, with start and step absent. */
  lemma ParseSingleStop(k: nat)
    ensures ParseSlice(ShowInt(k)) == Success(SliceSpec(None, Some(k), None))
  {
    SplitPlain(ShowInt(k), ':');
    ParseShowInt(k);
  }

  // ---------------------------------------------------------------------
  // Resolving a slice against a row count (Python slice semantics)
  // ---------------------------------------------------------------------

  /**
   * One given bound normalised against `n` rows: negative values count from
   * the end; what still lies outside is clamped to the range the step's
   * direction allows ([0, n] going up, [-1, n - 1] going down).
   */
  function AdjustBound(i: int, n: nat, step: int): (r: int)
    ensures step > 0 ==> 0 <= r <= n
    ensures step < 0 ==> -1 <= r <= n - 1
    ensures -(n as int) <= i < 0 ==> r == i + n
    ensures 0 <= i < n ==> r == i
    ensures i < -(n as int) ==> r == (if step < 0 then -1 else 0)
    ensures i >= n ==> r == (if step < 0 then n - 1 else n)
  {
    if i < 0 then
      if i + n < 0 then (if step < 0 then -1 else 0) else i + n
    else if i >= n then (if step < 0 then n - 1 else n)
    else i
  }

  /** The positions start, start+step, ... strictly before `stop` in the step's direction. */
  function Positions(start: int, stop: int, step: int): seq<int>
    requires step != 0
    decreases if step > 0 then stop - start else start - stop
  {
    if (step > 0 && start < stop) || (step < 0 && start > stop) then
      [start] + Positions(start + step, stop, step)
    else []
  }

  /**
   * The number of positions a slice selects, as CPython computes it
   * (PySlice_AdjustIndices): a ceiling division of the distance by the step.
   */
  function SliceLength(start: int, stop: int, step: int): nat
    requires step != 0
  {
    if step > 0 then (if start < stop then (stop - start - 1) / step + 1 else 0)
    else (if stop < start then (start - stop - 1) / (-step) + 1 else 0)
  }

  /**
   * Positions agrees with the arithmetic description of a slice: it has
   * SliceLength elements and the k-th is start + k * step.
   */
  lemma {:induction false} PositionsShape(start: int, stop: int, step: int)
    requires step != 0
    ensures |Positions(start, stop, step)| == SliceLength(start, stop, step)
    ensures forall k :: 0 <= k < |Positions(start, stop, step)| ==>
              Positions(start, stop, step)[k] == start + k * step
    decreases if step > 0 then stop - start else start - stop
  {
    if (step > 0 && start < stop) || (step < 0 && start > stop) {
      PositionsShape(start + step, stop, step);
      var rest := Positions(start + step, stop, step);
      forall k | 0 <= k < |Positions(start, stop, step)|
        ensures Positions(start, stop, step)[k] == start + k * step
      {
        if k > 0 {
          assert Positions(start, stop, step)[k] == rest[k - 1];
          assert start + step + (k - 1) * step == start + k * step;
        }
      }
      if step > 0 {
        DivStep(stop - start - 1, step);
      } else {
        DivStep(start - stop - 1, -step);
      }
    }
  }

  /** One step less distance is one position less. */
  lemma DivStep(d: int, s: int)
    requires d >= 0 && s > 0
    ensures d < s ==> d / s == 0
    ensures d >= s ==> (d - s) / s + 1 == d / s
  {
    if d >= s {
      var q, r := (d - s) / s, (d - s) % s;
      assert d == (q + 1) * s + r && 0 <= r < s;
      DivUnique(d, s, q + 1, r);
    }
  }

  /** Euclidean division has one quotient. */
  lemma DivUnique(d: int, s: int, q: int, r: int)
    requires s > 0 && 0 <= r < s && d == q * s + r
    ensures d / s == q
  {
    var q', r' := d / s, d % s;
    assert (q' - q) * s == r - r';
    if q' > q {
      MulAtLeast(q' - q, s);
    } else if q' < q {
      MulAtLeast(q - q', s);
    }
  }

  lemma MulAtLeast(a: int, s: int)
    requires a >= 1 && s > 0
    ensures a * s >= s
  {
  }

  /** Every position lies between start (inclusive) and stop (exclusive), in the step's direction. */
  lemma {:induction false} PositionsWithin(start: int, stop: int, step: int)
    requires step != 0
    ensures forall k :: 0 <= k < |Positions(start, stop, step)| ==>
              if step > 0 then start <= Positions(start, stop, step)[k] < stop
              else stop < Positions(start, stop, step)[k] <= start
    decreases if step > 0 then stop - start else start - stop
  {
    if (step > 0 && start < stop) || (step < 0 && start > stop) {
      PositionsWithin(start + step, stop, step);
    }
  }

  /** Strictly ascending for a positive step, strictly descending for a negative one. */
  predicate StrictlyMonotone(ps: seq<int>, step: int)
  {
    forall i, j :: 0 <= i < j < |ps| ==> if step > 0 then ps[i] < ps[j] else ps[i] > ps[j]
  }

  lemma PositionsMonotone(start: int, stop: int, step: int)
    requires step != 0
    ensures StrictlyMonotone(Positions(start, stop, step), step)
  {
    PositionsShape(start, stop, step);
    var ps := Positions(start, stop, step);
    forall i, j | 0 <= i < j < |ps|
      ensures if step > 0 then ps[i] < ps[j] else ps[i] > ps[j]
    {
      StepsApart(start, step, i, j);
    }
  }

  /** Taking more steps moves further in the step's direction. */
  lemma StepsApart(start: int, step: int, i: nat, j: nat)
    requires step != 0 && i < j
    ensures step > 0 ==> start + i * step < start + j * step
    ensures step < 0 ==> start + i * step > start + j * step
  {
    assert j * step == i * step + (j - i) * step;
    if step > 0 {
      MulAtLeast(j - i, step);
    } else {
      MulAtLeast(j - i, -step);
      assert (j - i) * step == -((j - i) * -step);
    }
  }

  /** The step actually used: 1 when absent. */
  function EffectiveStep(sp: SliceSpec): int
  {
    if sp.step.Some? then sp.step.value else 1
  }

  /** The first bound after defaulting and normalising, for a non-zero step. */
  function StartIndex(sp: SliceSpec, n: nat): int
    requires EffectiveStep(sp) != 0
  {
    var step := EffectiveStep(sp);
    if sp.start.Some? then AdjustBound(sp.start.value, n, step)
    else if step < 0 then n - 1 else 0
  }

  /** The exclusive end bound after defaulting and normalising, for a non-zero step. */
  function StopIndex(sp: SliceSpec, n: nat): int
    requires EffectiveStep(sp) != 0
  {
    var step := EffectiveStep(sp);
    if sp.stop.Some? then AdjustBound(sp.stop.value, n, step)
    else if step < 0 then -1 else n
  }

  /**
   * The row positions `iloc` selects with a slice over `n` rows: a step of 0
   * is the only error; every position is a row, and the list runs in the
   * step's direction (an empty list is a success).
   */
  function Resolve(sp: SliceSpec, n: nat): (r: Result<seq<int>, SliceError>)
    ensures r.Failure? <==> sp.step == Some(0)
    ensures r.Failure? ==> r.error == ZeroStep
    ensures r.Success? ==> forall k :: 0 <= k < |r.value| ==> 0 <= r.value[k] < n
    ensures r.Success? ==> StrictlyMonotone(r.value, EffectiveStep(sp))
  {
    var step := EffectiveStep(sp);
    if step == 0 then Failure(ZeroStep)
    else
      var start, stop := StartIndex(sp, n), StopIndex(sp, n);
      PositionsWithin(start, stop, step);
      PositionsMonotone(start, stop, step);
      Success(Positions(start, stop, step))
  }

  /** The whole slice branch: parse the text, then resolve it against the row count. */
  function ResolveText(text: string, n: nat): Result<seq<int>, SliceError>
  {
    match ParseSlice(text)
    case Failure(e) => Failure(e)
    case Success(sp) => Resolve(sp, n)
  }

  /** Resolve agrees with Python's description of s[i:j:k] with its defaults and clamping. */
  lemma ResolveShape(sp: SliceSpec, n: nat)
    requires EffectiveStep(sp) != 0
    ensures Resolve(sp, n).Success?
    ensures |Resolve(sp, n).value| == SliceLength(StartIndex(sp, n), StopIndex(sp, n), EffectiveStep(sp))
    ensures forall k :: 0 <= k < |Resolve(sp, n).value| ==>
              Resolve(sp, n).value[k] == StartIndex(sp, n) + k * EffectiveStep(sp)
  {
    PositionsShape(StartIndex(sp, n), StopIndex(sp, n), EffectiveStep(sp));
  }

  /** Two fields `start:stop` give a slice without a step. */
  lemma ParseTwoFields(start: Option<int>, stop: Option<int>)
    ensures ParseSlice(ShowField(start) + ":" + ShowField(stop)) == Success(SliceSpec(start, stop, None))
  {
    var pieces := [ShowField(start), ShowField(stop)];
    assert Join(pieces, ':') == ShowField(start) + ":" + ShowField(stop);
    SplitJoin(pieces, ':');
    ShowFieldRoundTrip(start);
    ShowFieldRoundTrip(stop);
  }

  /** `--slice k` with k >= 0 selects the first min(k, n) rows, in order. */
  lemma SingleFieldIsPrefix(k: nat, n: nat)
    ensures ResolveText(ShowInt(k), n).Success?
    ensures |ResolveText(ShowInt(k), n).value| == if k < n then k else n
    ensures forall i :: 0 <= i < |ResolveText(ShowInt(k), n).value| ==>
              ResolveText(ShowInt(k), n).value[i] == i
  {
    ParseSingleStop(k);
    ResolveShape(SliceSpec(None, Some(k), None), n);
  }

  /** An empty range text is `slice(None)`: every row, in order. */
  lemma EmptyTextSelectsAll(n: nat)
    ensures ResolveText("", n).Success?
    ensures |ResolveText("", n).value| == n
    ensures forall i :: 0 <= i < n ==> ResolveText("", n).value[i] == i
  {
    assert ParseSlice("") == Success(SliceSpec(None, None, None));
    ResolveShape(SliceSpec(None, None, None), n);
  }

  /**
   * `--slice -k:` with k >= 1 selects the last min(k, n) rows, in order:
   * a start further back than the first row is clamped to it.
   */
  lemma NegativeStartIsSuffix(k: nat, n: nat)
    requires 1 <= k
    ensures ResolveText(ShowInt(-(k as int)) + ":", n).Success?
    ensures var ps, m := ResolveText(ShowInt(-(k as int)) + ":", n).value, if k < n then k else n;
      |ps| == m && forall i :: 0 <= i < m ==> ps[i] == n - m + i
  {
    ParseTwoFields(Some(-(k as int)), None);
    assert ShowField(Some(-(k as int))) + ":" + ShowField(None) == ShowInt(-(k as int)) + ":";
    ResolveShape(SliceSpec(Some(-(k as int)), None, None), n);
  }

  /** With no bounds and step -1 every row is listed, last first. */
  lemma ReversedWhole(n: nat)
    ensures Resolve(SliceSpec(None, None, Some(-1)), n).Success?
    ensures |Resolve(SliceSpec(None, None, Some(-1)), n).value| == n
    ensures forall i :: 0 <= i < n ==> Resolve(SliceSpec(None, None, Some(-1)), n).value[i] == n - 1 - i
  {
    ResolveShape(SliceSpec(None, None, Some(-1)), n);
  }
}
