/**
 Python 2 string handling that the daemon relies on: `str.split()` with no
 separator, slicing with possibly negative bounds, and the decimal counters
 that `/proc/stat` holds.
 */
module Text {
  import opened Wrappers

  /** The characters Python 2's `str.split()` treats as separators: tab,
      newline, vertical tab, form feed, carriage return (codes 9..13) and
      space. */
  predicate IsSpace(c: char)
  {
    c == ' ' || ('\t' <= c <= '\r')
  }

  /** A token as `split()` produces it: non-empty and free of separators. */
  predicate IsWord(w: string)
  {
    |w| > 0 && forall i :: 0 <= i < |w| ==> !IsSpace(w[i])
  }

  /** Length of the longest separator-free prefix of `s`. */
  function WordLen(s: string): (n: nat)
    ensures n <= |s|
    ensures forall i :: 0 <= i < n ==> !IsSpace(s[i])
    ensures n < |s| ==> IsSpace(s[n])
  {
    if |s| == 0 || IsSpace(s[0]) then 0 else 1 + WordLen(s[1..])
  }

  /** `s.split()`: the maximal separator-free runs of `s`, in order. */
  function Split(s: string): (ws: seq<string>)
    ensures forall i :: 0 <= i < |ws| ==> IsWord(ws[i])
    decreases |s|
  {
    if |s| == 0 then []
    else if IsSpace(s[0]) then Split(s[1..])
    else
      var n := WordLen(s);
      [s[..n]] + Split(s[n..])
  }

  /** A run of one or more separators, as may stand between two tokens. */
  predicate IsGap(g: string)
  {
    |g| > 0 && forall i :: 0 <= i < |g| ==> IsSpace(g[i])
  }

  /** The words with `gaps[i]` between word `i` and word `i + 1`. */
  function Join(ws: seq<string>, gaps: seq<string>): string
    requires |ws| <= |gaps| + 1
  {
    if |ws| == 0 then ""
    else if |ws| == 1 then ws[0]
    else ws[0] + gaps[0] + Join(ws[1..], gaps[1..])
  }

  /** `n` single spaces, the gaps `" ".join` puts between words. */
  function SingleSpaces(n: nat): (gs: seq<string>)
    ensures |gs| == n
    ensures forall i :: 0 <= i < n ==> IsGap(gs[i])
  {
    seq(n, i => " ")
  }

  /** A run of separators, however long, is skipped as a whole: two spaces
      split like one. */
  lemma {:induction false} SplitSkipsSeparators(sep: string, t: string)
    requires forall i :: 0 <= i < |sep| ==> IsSpace(sep[i])
    ensures Split(sep + t) == Split(t)
    decreases |sep|
  {
    if |sep| > 0 {
      assert (sep + t)[1..] == sep[1..] + t;
      SplitSkipsSeparators(sep[1..], t);
    } else {
      assert sep + t == t;
    }
  }

  /** A word followed by a separator (or by nothing) splits off as one token. */
  lemma {:induction false} SplitWordThen(w: string, u: string)
    requires IsWord(w)
    requires |u| == 0 || IsSpace(u[0])
    ensures Split(w + u) == [w] + Split(u)
  {
    var s := w + u;
    assert s[..|w|] == w;
    assert s[|w|..] == u;
    assert WordLen(s) == |w|;
  }

  /** The first of several joined words splits off on its own, whatever
      separator run follows it. */
  lemma JoinSplitsHead(ws: seq<string>, gaps: seq<string>, t: string)
    requires |ws| >= 2 && |ws| <= |gaps| + 1
    requires IsWord(ws[0]) && IsGap(gaps[0])
    ensures Split(Join(ws, gaps) + t) == [ws[0]] + Split(Join(ws[1..], gaps[1..]) + t)
  {
    var rest := Join(ws[1..], gaps[1..]) + t;
    var u := gaps[0] + rest;
    assert Join(ws, gaps) + t == ws[0] + u;
    SplitWordThen(ws[0], u);
    SplitSkipsSeparators(gaps[0], rest);
  }

  /** No word or a single word splits back to itself. */
  lemma SplitJoinShort(ws: seq<string>, gaps: seq<string>, t: string)
    requires |ws| <= 1 && |ws| <= |gaps| + 1
    requires forall i :: 0 <= i < |ws| ==> IsWord(ws[i])
    requires |t| == 0 || IsSpace(t[0])
    ensures Split(Join(ws, gaps) + t) == ws + Split(t)
  {
    if |ws| == 0 {
      assert Join(ws, gaps) + t == t;
      assert ws + Split(t) == Split(t);
    } else {
      var w := ws[0];
      assert Join(ws, gaps) + t == w + t;
      assert Split(w + t) == [w] + Split(t) by {
        SplitWordThen(w, t);
      }
      assert ws == [w];
    }
  }

  /** Splitting joined words gives the words back, whatever separator runs
      stand between them and whatever separator text follows them. */
  lemma {:induction false} SplitJoinThen(ws: seq<string>, gaps: seq<string>, t: string)
    requires |ws| <= |gaps| + 1
    requires forall i :: 0 <= i < |ws| ==> IsWord(ws[i])
    requires forall i :: 0 <= i < |gaps| ==> IsGap(gaps[i])
    requires |t| == 0 || IsSpace(t[0])
    ensures Split(Join(ws, gaps) + t) == ws + Split(t)
    decreases |ws|
  {
    if |ws| <= 1 {
      SplitJoinShort(ws, gaps, t);
    } else {
      var tail := ws[1..];
      assert Split(Join(ws, gaps) + t) == [ws[0]] + Split(Join(tail, gaps[1..]) + t) by {
        JoinSplitsHead(ws, gaps, t);
      }
      assert Split(Join(tail, gaps[1..]) + t) == tail + Split(t) by {
        SplitJoinThen(tail, gaps[1..], t);
      }
      assert ws + Split(t) == [ws[0]] + (tail + Split(t));
    }
  }

  /** Python's normalisation of one slice bound against a length. */
  function SliceBound(i: int, len: nat): (k: nat)
    ensures k <= len
    ensures 0 <= i <= len ==> k == i
    ensures i < 0 && len + i >= 0 ==> k == len + i
    ensures i > len ==> k == len
    ensures len + i < 0 ==> k == 0
  {
    if i < 0 then (if len + i < 0 then 0 else len + i)
    else if i > len then len
    else i
  }

  /** `s[start:stop]` with Python's clamping and negative indices. */
  function Slice<T>(s: seq<T>, start: int, stop: int): (r: seq<T>)
    ensures |r| <= |s|
    ensures 0 <= start <= stop <= |s| ==> r == s[start..stop]
    ensures 0 <= stop <= start ==> r == []
  {
    var a, b := SliceBound(start, |s|), SliceBound(stop, |s|);
    if a < b then s[a..b] else []
  }

  /** Python's slice rules: a bound past the end counts as the end, a
      negative bound counts back from the end, and one further back than the
      start counts as the start. */
  lemma SliceRules<T>(s: seq<T>, start: int, stop: int)
    ensures start > |s| ==> Slice(s, start, stop) == Slice(s, |s|, stop)
    ensures -|s| <= start < 0 ==> Slice(s, start, stop) == Slice(s, |s| + start, stop)
    ensures start < -|s| ==> Slice(s, start, stop) == Slice(s, 0, stop)
    ensures stop > |s| ==> Slice(s, start, stop) == Slice(s, start, |s|)
    ensures -|s| <= stop < 0 ==> Slice(s, start, stop) == Slice(s, start, |s| + stop)
    ensures stop < -|s| ==> Slice(s, start, stop) == Slice(s, start, 0)
  {
  }

  predicate IsDigit(c: char)
  {
    '0' <= c <= '9'
  }

  predicate AllDigits(s: string)
  {
    forall i :: 0 <= i < |s| ==> IsDigit(s[i])
  }

  function DigitValue(c: char): (d: nat)
    requires IsDigit(c)
    ensures d < 10
  {
    c as int - '0' as int
  }

  function DigitChar(d: nat): (c: char)
    requires d < 10
    ensures IsDigit(c) && DigitValue(c) == d
  {
    ('0' as int + d) as char
  }

  /** The number a string of decimal digits denotes, most significant first. */
  function DigitsValue(s: string): nat
    requires AllDigits(s)
  {
    if |s| == 0 then 0 else DigitsValue(s[..|s| - 1]) * 10 + DigitValue(s[|s| - 1])
  }

  /** A counter token: a non-empty run of decimal digits, or nothing. */
  function ParseNat(s: string): (r: Option<nat>)
    ensures r.Some? <==> |s| > 0 && AllDigits(s)
  {
    if |s| > 0 && AllDigits(s) then Some(DigitsValue(s)) else None
  }

  /** The decimal spelling of `n`, without leading zeros. */
  function ShowNat(n: nat): (s: string)
    ensures |s| > 0 && AllDigits(s)
  {
    if n < 10 then [DigitChar(n)] else ShowNat(n / 10) + [DigitChar(n % 10)]
  }

  /** Reading back a printed counter gives the counter. */
  lemma {:induction false} ParseShowNat(n: nat)
    ensures ParseNat(ShowNat(n)) == Some(n)
    ensures IsWord(ShowNat(n))
  {
    var s := ShowNat(n);
    forall i | 0 <= i < |s| ensures !IsSpace(s[i]) {
      assert IsDigit(s[i]);
    }
    if n < 10 {
      assert s[..|s| - 1] == [];
      assert DigitsValue(s) == DigitsValue([]) * 10 + DigitValue(s[0]);
    } else {
      ParseShowNat(n / 10);
      assert s[..|s| - 1] == ShowNat(n / 10);
      assert DigitsValue(ShowNat(n / 10)) == n / 10;
      assert DigitValue(s[|s| - 1]) == n % 10;
    }
  }
}
