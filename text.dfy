/**
 * The few PHP string primitives the plugin relies on: truthiness of a
 * string, `implode('', ...)` and `str_replace`.
 */
module Text {

  /** PHP truthiness of a string: only "" and "0" are falsy. */
  predicate Truthy(s: string)
  {
    s != "" && s != "0"
  }

  /** `implode('', parts)`: the parts glued together with nothing between. */
  function Concat(parts: seq<string>): string
  {
    if |parts| == 0 then "" else parts[0] + Concat(parts[1..])
  }

  lemma {:induction false} ConcatAppend(a: seq<string>, b: seq<string>)
    ensures Concat(a + b) == Concat(a) + Concat(b)
  {
    if |a| == 0 {
      assert a + b == b;
    } else {
      assert (a + b)[1..] == a[1..] + b;
      ConcatAppend(a[1..], b);
    }
  }

  /**
   * The parts with `sep` between neighbours. The plugin never calls this;
   * it describes a template cut at its placeholders, for stating what
   * `str_replace` does to it.
   */
  function Join(parts: seq<string>, sep: string): string
  {
    if |parts| == 0 then ""
    else if |parts| == 1 then parts[0]
    else parts[0] + sep + Join(parts[1..], sep)
  }

  /**
   * `s` cut at every occurrence of `needle`, scanning left to right as
   * `str_replace` does: the pieces between occurrences, in order.
   */
  function Split(s: string, needle: string): (parts: seq<string>)
    requires |needle| > 0
    ensures |parts| >= 1
    decreases |s|
  {
    if |s| == 0 then [""]
    else if needle <= s then [""] + Split(s[|needle|..], needle)
    else var r := Split(s[1..], needle); [[s[0]] + r[0]] + r[1..]
  }

  lemma PrefixTrans(a: string, b: string, c: string)
    requires a <= b && b <= c
    ensures a <= c
  {
    assert c[..|b|][..|a|] == c[..|a|];
  }

  /** Whether `needle` occurs anywhere in `s`. */
  predicate Occurs(s: string, needle: string)
    requires |needle| > 0
  {
    needle <= s || (|s| > 0 && Occurs(s[1..], needle))
  }

  lemma SplitHere(s: string, needle: string)
    requires |needle| > 0 && |s| > 0 && needle <= s
    ensures Split(s, needle) == [""] + Split(s[|needle|..], needle)
  {
  }

  lemma SplitSkip(s: string, needle: string)
    requires |needle| > 0 && |s| > 0 && !(needle <= s)
    ensures Split(s, needle) == [[s[0]] + Split(s[1..], needle)[0]] + Split(s[1..], needle)[1..]
  {
  }

  lemma JoinCons(x: string, r: seq<string>, sep: string)
    requires |r| >= 1
    ensures Join([x] + r, sep) == x + sep + Join(r, sep)
  {
    assert ([x] + r)[1..] == r;
  }

  /** Gluing a character onto the first piece of a split of `t` gives a split of `[c] + t`. */
  lemma GlueFirst(c: char, t: string, r: seq<string>, sep: string)
    requires |r| >= 1 && r[0] <= t && Join(r, sep) == t
    ensures [c] + r[0] <= [c] + t
    ensures Join([[c] + r[0]] + r[1..], sep) == [c] + t
  {
    if |r| > 1 {
      assert r == [r[0]] + r[1..];
      JoinCons(r[0], r[1..], sep);
      JoinCons([c] + r[0], r[1..], sep);
    }
  }

  /** The pieces joined by the needle give the text back; the first piece is a prefix of it. */
  lemma {:induction false} SplitJoin(s: string, needle: string)
    requires |needle| > 0
    ensures Split(s, needle)[0] <= s
    ensures Join(Split(s, needle), needle) == s
    decreases |s|
  {
    if |s| > 0 && needle <= s {
      var rest := s[|needle|..];
      SplitJoin(rest, needle);
      SplitHere(s, needle);
      JoinCons("", Split(rest, needle), needle);
      assert s == needle + rest;
    } else if |s| > 0 {
      SplitJoin(s[1..], needle);
      SplitSkip(s, needle);
      GlueFirst(s[0], s[1..], Split(s[1..], needle), needle);
      assert s == [s[0]] + s[1..];
    }
  }

  /** No piece of the split contains the needle. */
  lemma {:induction false} SplitFree(s: string, needle: string)
    requires |needle| > 0
    ensures forall i :: 0 <= i < |Split(s, needle)| ==> !Occurs(Split(s, needle)[i], needle)
    decreases |s|
  {
    var parts := Split(s, needle);
    if |s| > 0 && needle <= s {
      var r := Split(s[|needle|..], needle);
      SplitFree(s[|needle|..], needle);
      SplitHere(s, needle);
      forall i | 0 <= i < |parts| ensures !Occurs(parts[i], needle) {
        if i > 0 {
          assert parts[i] == r[i - 1];
        }
      }
    } else if |s| > 0 {
      var r := Split(s[1..], needle);
      SplitFree(s[1..], needle);
      SplitJoin(s[1..], needle);
      SplitSkip(s, needle);
      var first := [s[0]] + r[0];
      assert first <= s;
      if needle <= first {
        PrefixTrans(needle, first, s);
      }
      forall i | 0 <= i < |parts| ensures !Occurs(parts[i], needle) {
        if i > 0 {
          assert parts[i] == r[i];
        }
      }
    }
  }

  /**
   * A needle whose first character appears nowhere else in it cannot
   * overlap itself, so no occurrence can straddle a boundary between a
   * needle-free text and a following copy of the needle.
   */
  predicate Unbordered(needle: string)
  {
    |needle| > 0 && needle[0] !in needle[1..]
  }

  /**
   * `str_replace(needle, rep, s)`: scans left to right and replaces every
   * non-overlapping occurrence of `needle`; inserted text is not rescanned.
   */
  function ReplaceAll(s: string, needle: string, rep: string): string
    requires |needle| > 0
    decreases |s|
  {
    if |s| == 0 then ""
    else if needle <= s then rep + ReplaceAll(s[|needle|..], needle, rep)
    else [s[0]] + ReplaceAll(s[1..], needle, rep)
  }

  /** Text without the needle comes through unchanged. */
  lemma {:induction false} ReplaceFree(s: string, needle: string, rep: string)
    requires |needle| > 0 && !Occurs(s, needle)
    ensures ReplaceAll(s, needle, rep) == s
  {
    if |s| > 0 {
      ReplaceFree(s[1..], needle, rep);
    }
  }

  /** After needle-free text, the needle cannot start at the first character. */
  lemma NoEarlyMatch(p: string, needle: string, rest: string)
    requires Unbordered(needle) && !Occurs(p, needle) && |p| > 0
    ensures !(needle <= p + needle + rest)
  {
    var s := p + needle + rest;
    if |p| >= |needle| {
      assert needle <= s ==> needle <= p;
    } else {
      assert s[|p|] == needle[0];
      assert needle[1..][|p| - 1] == needle[|p|];
    }
  }

  /** An occurrence at the front is replaced and scanning resumes after it. */
  lemma ReplaceHere(s: string, needle: string, rep: string)
    requires |needle| > 0 && needle <= s
    ensures ReplaceAll(s, needle, rep) == rep + ReplaceAll(s[|needle|..], needle, rep)
  {
  }

  /** Without an occurrence at the front, the first character is copied. */
  lemma ReplaceSkip(s: string, needle: string, rep: string)
    requires |needle| > 0 && |s| > 0 && !(needle <= s)
    ensures ReplaceAll(s, needle, rep) == [s[0]] + ReplaceAll(s[1..], needle, rep)
  {
  }

  /** The needle at the very front is replaced. */
  lemma ReplaceFront(needle: string, rest: string, rep: string)
    requires |needle| > 0
    ensures ReplaceAll(needle + rest, needle, rep) == rep + ReplaceAll(rest, needle, rep)
  {
    var s := needle + rest;
    ReplaceHere(s, needle, rep);
    assert s[|needle|..] == rest;
  }

  lemma TailSlice(p: string, needle: string, rest: string)
    requires |p| > 0
    ensures (p + needle + rest)[1..] == p[1..] + needle + rest
    ensures (p + needle + rest)[0] == p[0]
  {
  }

  lemma ConsGlue(c: char, t: string, rep: string, r: string, p: string)
    requires p == [c] + t
    ensures [c] + (t + rep + r) == p + rep + r
  {
  }

  /** A needle-free prefix is copied, then the needle right after it is replaced. */
  lemma {:induction false} ReplaceAcross(p: string, needle: string, rest: string, rep: string)
    requires Unbordered(needle) && !Occurs(p, needle)
    ensures ReplaceAll(p + needle + rest, needle, rep) == p + rep + ReplaceAll(rest, needle, rep)
  {
    var r := ReplaceAll(rest, needle, rep);
    if |p| == 0 {
      ReplaceFront(needle, rest, rep);
      assert p + needle + rest == needle + rest;
      assert p + rep + r == rep + r;
    } else {
      var s, t := p + needle + rest, p[1..];
      NoEarlyMatch(p, needle, rest);
      ReplaceSkip(s, needle, rep);
      TailSlice(p, needle, rest);
      ReplaceAcross(t, needle, rest, rep);
      ConsGlue(p[0], t, rep, r, p);
    }
  }

  /**
   * Replacing in a text made of needle-free parts separated by the needle
   * puts `rep` exactly where each separator was and leaves every part as it was.
   */
  lemma {:induction false} ReplaceJoin(parts: seq<string>, needle: string, rep: string)
    requires Unbordered(needle)
    requires forall i :: 0 <= i < |parts| ==> !Occurs(parts[i], needle)
    ensures ReplaceAll(Join(parts, needle), needle, rep) == Join(parts, rep)
  {
    if |parts| == 1 {
      ReplaceFree(parts[0], needle, rep);
    } else if |parts| > 1 {
      ReplaceAcross(parts[0], needle, Join(parts[1..], needle), rep);
      ReplaceJoin(parts[1..], needle, rep);
    }
  }
}
