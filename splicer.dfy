/**
 * The front-end paragraph splicer (`inject_message_into_content`): split the
 * rendered post body on closing paragraph tags, re-pair the pieces into
 * paragraph units, and insert the stored fragment, wrapped in its own
 * paragraph, every `interval` units.
 */
module Splicer {
  import opened Text

  /** A closing paragraph tag `</p>`, the tag name matched case-insensitively. */
  predicate IsClose(t: string)
  {
    |t| == 4 && t[0] == '<' && t[1] == '/' && (t[2] == 'p' || t[2] == 'P') && t[3] == '>'
  }

  predicate StartsWithClose(s: string)
  {
    |s| >= 4 && IsClose(s[..4])
  }

  function NonEmpty(run: string): (r: seq<string>)
  {
    if run == "" then [] else [run]
  }

  /**
   * The scan behind `preg_split('/(<\/p>)/i', s, -1, DELIM_CAPTURE | NO_EMPTY)`:
   * `s[start..i]` is the text run collected so far; every closing tag is
   * emitted as its own piece and empty runs are dropped.
   */
  function Scan(s: string, start: nat, i: nat): seq<string>
    requires start <= i <= |s|
    decreases |s| - i
  {
    if i == |s| then NonEmpty(s[start..])
    else if StartsWithClose(s[i..]) then NonEmpty(s[start..i]) + [s[i..i + 4]] + Scan(s, i + 4, i + 4)
    else Scan(s, start, i + 1)
  }

  /** The pieces of `content`: closing tags and the non-empty runs between them. */
  function Pieces(content: string): seq<string>
  {
    Scan(content, 0, 0)
  }

  lemma SliceThree(s: string, a: nat, b: nat, c: nat)
    requires a <= b <= c <= |s|
    ensures s[a..] == s[a..b] + s[b..c] + s[c..]
  {
    assert s[a..] == s[a..b] + s[b..];
    assert s[b..] == s[b..c] + s[c..];
  }

  lemma {:induction false} ScanConcat(s: string, start: nat, i: nat)
    requires start <= i <= |s|
    ensures Concat(Scan(s, start, i)) == s[start..]
    decreases |s| - i
  {
    if i == |s| {
      assert Concat(NonEmpty(s[start..])) == s[start..];
    } else if StartsWithClose(s[i..]) {
      ScanConcat(s, i + 4, i + 4);
      var run, close, rest := NonEmpty(s[start..i]), [s[i..i + 4]], Scan(s, i + 4, i + 4);
      assert Scan(s, start, i) == run + close + rest;
      ConcatAppend(run + close, rest);
      ConcatAppend(run, close);
      assert Concat(close) == s[i..i + 4];
      assert Concat(run) == s[start..i];
      SliceThree(s, start, i, i + 4);
    } else {
      ScanConcat(s, start, i + 1);
    }
  }

  lemma {:induction false} ScanNonEmpty(s: string, start: nat, i: nat)
    requires start <= i <= |s|
    ensures forall k :: 0 <= k < |Scan(s, start, i)| ==> Scan(s, start, i)[k] != ""
    ensures Scan(s, start, i) == [] <==> start == |s|
    decreases |s| - i
  {
    if i < |s| {
      if StartsWithClose(s[i..]) {
        ScanNonEmpty(s, i + 4, i + 4);
      } else {
        ScanNonEmpty(s, start, i + 1);
      }
    }
  }

  /** No closing tag starts anywhere in `t`. */
  predicate CloseFree(t: string)
  {
    forall j :: 0 <= j < |t| ==> !StartsWithClose(t[j..])
  }

  /**
   * The shape of a split: every piece is a closing tag or a run holding no
   * closing tag, and no two runs are neighbours, so each run is maximal.
   */
  predicate SplitShaped(r: seq<string>)
  {
    && (forall k :: 0 <= k < |r| ==> IsClose(r[k]) || CloseFree(r[k]))
    && (forall k :: 0 < k < |r| ==> IsClose(r[k - 1]) || IsClose(r[k]))
  }

  /** A stretch of `s` in which no closing tag starts is itself free of them. */
  lemma RunCloseFree(s: string, start: nat, i: nat)
    requires start <= i <= |s|
    requires forall j :: start <= j < i ==> !StartsWithClose(s[j..])
    ensures CloseFree(s[start..i])
  {
    var run := s[start..i];
    forall j | 0 <= j < |run| ensures !StartsWithClose(run[j..]) {
      assert !StartsWithClose(s[start + j..]);
      if |run[j..]| >= 4 {
        assert run[j..][..4] == s[start + j..start + j + 4] == s[start + j..][..4];
      }
    }
  }

  lemma ShapedCons(x: string, rest: seq<string>)
    requires SplitShaped(rest) && (IsClose(x) || CloseFree(x))
    requires IsClose(x) || |rest| == 0 || IsClose(rest[0])
    ensures SplitShaped([x] + rest)
  {
    var r := [x] + rest;
    forall k | 0 < k < |r| ensures IsClose(r[k - 1]) || IsClose(r[k]) {
      assert r[k] == rest[k - 1];
      if k > 1 {
        assert r[k - 1] == rest[k - 2];
      }
    }
  }

  /** A run, then the closing tag at `i`, then a well-shaped remainder. */
  lemma ScanShapeAtClose(s: string, start: nat, i: nat)
    requires start <= i < |s| && StartsWithClose(s[i..])
    requires CloseFree(s[start..i]) && SplitShaped(Scan(s, i + 4, i + 4))
    ensures SplitShaped(Scan(s, start, i))
  {
    var run, close, rest := s[start..i], s[i..i + 4], Scan(s, i + 4, i + 4);
    assert close == s[i..][..4];
    ShapedCons(close, rest);
    assert Scan(s, start, i) == NonEmpty(run) + [close] + rest;
    if start < i {
      ShapedCons(run, [close] + rest);
      assert NonEmpty(run) + [close] + rest == [run] + ([close] + rest);
    } else {
      assert NonEmpty(run) + [close] + rest == [close] + rest;
    }
  }

  lemma {:induction false} ScanShape(s: string, start: nat, i: nat)
    requires start <= i <= |s|
    requires forall j :: start <= j < i ==> !StartsWithClose(s[j..])
    ensures SplitShaped(Scan(s, start, i))
    decreases |s| - i
  {
    RunCloseFree(s, start, i);
    if i < |s| {
      if StartsWithClose(s[i..]) {
        ScanShape(s, i + 4, i + 4);
        ScanShapeAtClose(s, start, i);
      } else {
        ScanShape(s, start, i + 1);
      }
    }
  }

  /**
   * Splitting loses nothing, yields no empty piece, yields nothing only for
   * empty content, and cuts exactly at the closing tags: every piece is a
   * tag or a maximal run without one.
   */
  lemma PiecesFacts(content: string)
    ensures Concat(Pieces(content)) == content
    ensures forall k :: 0 <= k < |Pieces(content)| ==> Pieces(content)[k] != ""
    ensures Pieces(content) == [] <==> content == ""
    ensures SplitShaped(Pieces(content))
  {
    ScanConcat(content, 0, 0);
    ScanNonEmpty(content, 0, 0);
    ScanShape(content, 0, 0);
  }

  /** Paragraph units: the pieces taken two at a time, a lone last piece on its own. */
  function Pairs(pieces: seq<string>): seq<string>
  {
    if |pieces| == 0 then []
    else if |pieces| == 1 then [pieces[0]]
    else [pieces[0] + pieces[1]] + Pairs(pieces[2..])
  }

  /** Unit `k` is piece `2k` followed by piece `2k+1` when that piece exists. */
  lemma {:induction false} PairsAt(pieces: seq<string>, k: nat)
    ensures |Pairs(pieces)| == (|pieces| + 1) / 2
    ensures k < |Pairs(pieces)| ==>
      Pairs(pieces)[k] == pieces[2 * k] + (if 2 * k + 1 < |pieces| then pieces[2 * k + 1] else "")
  {
    if |pieces| >= 2 {
      PairsAt(pieces[2..], if k > 0 then k - 1 else 0);
    }
  }

  /** Pairing loses nothing either. */
  lemma {:induction false} PairsConcat(pieces: seq<string>)
    ensures Concat(Pairs(pieces)) == Concat(pieces)
  {
    if |pieces| >= 2 {
      PairsConcat(pieces[2..]);
      assert pieces == [pieces[0], pieces[1]] + pieces[2..];
      ConcatAppend([pieces[0], pieces[1]], pieces[2..]);
      assert Concat([pieces[0], pieces[1]]) == pieces[0] + pieces[1];
      ConcatAppend([pieces[0] + pieces[1]], Pairs(pieces[2..]));
    }
  }

  /** The paragraph units of `content`; joining them gives `content` back exactly. */
  function Units(content: string): (r: seq<string>)
    ensures Concat(r) == content
    ensures |r| == 0 <==> content == ""
  {
    PiecesFacts(content);
    PairsConcat(Pieces(content));
    PairsAt(Pieces(content), 0);
    Pairs(Pieces(content))
  }

  /**
   * Reference definition of the insertion loop: copy `interval` units, and
   * insert `block` there only if at least one more unit follows.
   */
  function Interleave(units: seq<string>, block: string, interval: nat): seq<string>
    requires interval >= 1
    decreases |units|
  {
    if |units| <= interval then units
    else units[..interval] + [block] + Interleave(units[interval..], block, interval)
  }

  /** Removes the slot after every `interval` entries: undoes `Interleave`. */
  function Strip(v: seq<string>, interval: nat): seq<string>
    requires interval >= 1
    decreases |v|
  {
    if |v| <= interval then v
    else v[..interval] + Strip(v[interval + 1..], interval)
  }

  lemma {:induction false} MulAtLeast(a: int, n: int)
    requires a >= 1 && n >= 1
    ensures a * n >= n
  {
    if a > 1 {
      MulAtLeast(a - 1, n);
      assert a * n == (a - 1) * n + n;
    }
  }

  /** Euclidean division is determined by quotient and remainder. */
  lemma DivUnique(x: int, n: int, q: int, r: int)
    requires n >= 1 && 0 <= r < n && x == q * n + r
    ensures x / n == q
  {
    var d, m := x / n, x % n;
    assert x == d * n + m;
    if d > q {
      MulAtLeast(d - q, n);
      assert false;
    } else if d < q {
      MulAtLeast(q - d, n);
      assert false;
    }
  }

  lemma DivStep(x: int, n: int)
    requires n >= 1 && x >= n
    ensures (x - n) / n + 1 == x / n
  {
    var q, r := (x - n) / n, (x - n) % n;
    assert x - n == q * n + r;
    assert x == (q + 1) * n + r;
    DivUnique(x, n, q + 1, r);
  }

  /** The output holds every unit plus floor((P-1)/N) blocks. */
  lemma {:induction false} InterleaveLength(units: seq<string>, block: string, interval: nat)
    requires interval >= 1
    ensures |units| == 0 ==> Interleave(units, block, interval) == []
    ensures |units| >= 1 ==> |Interleave(units, block, interval)| == |units| + (|units| - 1) / interval
    decreases |units|
  {
    if |units| > interval {
      InterleaveLength(units[interval..], block, interval);
      DivStep(|units| - 1, interval);
    }
  }

  /** One round of the reference definition when more than `interval` units remain. */
  lemma InterleaveStep(units: seq<string>, block: string, interval: nat)
    requires interval >= 1 && |units| > interval
    ensures Interleave(units, block, interval)
      == units[..interval] + [block] + Interleave(units[interval..], block, interval)
  {
  }

  /** Past the first round, the shifted offset of unit `j` is that of unit `j - N` in the rest, moved by the round. */
  lemma ShiftIndex(j: int, interval: int)
    requires interval >= 1 && j >= interval
    ensures j + j / interval == interval + 1 + ((j - interval) + (j - interval) / interval)
  {
    DivStep(j, interval);
  }

  lemma IndexPast(a: seq<string>, w: seq<string>, x: nat)
    requires x < |w|
    ensures |a| + x < |a + w| && (a + w)[|a| + x] == w[x]
  {
  }

  /** Original unit `j` lands at position `j + j / N`: order kept, shifted by the blocks before it. */
  lemma {:induction false} InterleaveUnitAt(units: seq<string>, block: string, interval: nat, j: nat)
    requires interval >= 1 && j < |units|
    ensures j + j / interval < |Interleave(units, block, interval)|
    ensures Interleave(units, block, interval)[j + j / interval] == units[j]
    decreases |units|
  {
    if j < interval {
      DivUnique(j, interval, 0, j);
      if |units| > interval {
        InterleaveStep(units, block, interval);
      }
    } else {
      var rest := units[interval..];
      var i := j - interval;
      InterleaveUnitAt(rest, block, interval, i);
      InterleaveStep(units, block, interval);
      ShiftIndex(j, interval);
      IndexPast(units[..interval] + [block], Interleave(rest, block, interval), i + i / interval);
      assert rest[i] == units[j];
    }
  }

  /** Block `k` (1-based) sits immediately before original unit `k * N`. */
  lemma {:induction false} InterleaveBlockAt(units: seq<string>, block: string, interval: nat, k: nat)
    requires interval >= 1 && 1 <= k && |units| >= 1 && k <= (|units| - 1) / interval
    ensures k * interval + k - 1 < |Interleave(units, block, interval)|
    ensures Interleave(units, block, interval)[k * interval + k - 1] == block
    decreases |units|
  {
    InterleaveLength(units, block, interval);
    if |units| - 1 < interval {
      DivUnique(|units| - 1, interval, 0, |units| - 1);
      assert false;
    }
    if k > 1 {
      DivStep(|units| - 1, interval);
      InterleaveBlockAt(units[interval..], block, interval, k - 1);
      assert k * interval + k - 1 == interval + 1 + ((k - 1) * interval + (k - 1) - 1);
    }
  }

  /** No block follows the final unit. */
  lemma InterleaveEndsWithUnit(units: seq<string>, block: string, interval: nat)
    requires interval >= 1 && |units| >= 1
    ensures Interleave(units, block, interval)[|Interleave(units, block, interval)| - 1] == units[|units| - 1]
  {
    InterleaveLength(units, block, interval);
    InterleaveUnitAt(units, block, interval, |units| - 1);
  }

  /** Taking the blocks back out gives the original units. */
  lemma {:induction false} StripInterleave(units: seq<string>, block: string, interval: nat)
    requires interval >= 1
    ensures Strip(Interleave(units, block, interval), interval) == units
    decreases |units|
  {
    if |units| > interval {
      var v := Interleave(units, block, interval);
      StripInterleave(units[interval..], block, interval);
      assert v[..interval] == units[..interval];
      assert v[interval + 1..] == Interleave(units[interval..], block, interval);
      assert units == units[..interval] + units[interval..];
    }
  }

  /** With at least as many units per interval as there are units, nothing is inserted. */
  lemma InterleaveWide(units: seq<string>, block: string, interval: nat)
    requires interval >= 1 && |units| <= interval
    ensures Interleave(units, block, interval) == units
  {
  }

  /** The paragraph wrapping one inserted copy of the fragment. */
  function Block(fragment: string): string
  {
    "<p>" + fragment + "</p>"
  }

  /** The whole splice, stated on values. */
  function Injected(content: string, fragment: string, interval: nat): string
    requires interval >= 1
  {
    if !Truthy(fragment) || Pieces(content) == [] then content
    else Concat(Interleave(Units(content), Block(fragment), interval))
  }

  /** A falsy fragment or empty content leaves the markup unchanged. */
  lemma InjectedNoOp(content: string, fragment: string, interval: nat)
    requires interval >= 1
    requires !Truthy(fragment) || content == ""
    ensures Injected(content, fragment, interval) == content
  {
    PiecesFacts(content);
  }

  /** With `interval >= P` the output equals the input. */
  lemma InjectedWide(content: string, fragment: string, interval: nat)
    requires interval >= 1 && |Units(content)| <= interval
    ensures Injected(content, fragment, interval) == content
  {
    InterleaveWide(Units(content), Block(fragment), interval);
  }

  /** Entry `j + j / N` of `v` is `x`: unit `j` shifted by the blocks before it. */
  predicate UnitSlot(v: seq<string>, interval: nat, j: nat, x: string)
    requires interval >= 1
  {
    j + j / interval < |v| && v[j + j / interval] == x
  }

  /** Entry `k * N + k - 1` of `v` is `x`: the slot of block `k`, 1-based. */
  predicate BlockSlot(v: seq<string>, interval: nat, k: nat, x: string)
  {
    0 <= k * interval + k - 1 < |v| && v[k * interval + k - 1] == x
  }

  /**
   * `v` is `units` with floor((P-1)/N) copies of `block`: every unit in its
   * shifted slot, in order, block k just before unit k*N, and taking the
   * blocks out gives the units back.
   */
  predicate Spliced(v: seq<string>, units: seq<string>, block: string, interval: nat)
    requires interval >= 1 && |units| >= 1
  {
    && |v| == |units| + (|units| - 1) / interval
    && Strip(v, interval) == units
    && (forall j: nat :: j < |units| ==> UnitSlot(v, interval, j, units[j]))
    && (forall k: nat :: 1 <= k <= (|units| - 1) / interval ==> BlockSlot(v, interval, k, block))
  }

  lemma InterleaveSpliced(units: seq<string>, block: string, interval: nat)
    requires interval >= 1 && |units| >= 1
    ensures Spliced(Interleave(units, block, interval), units, block, interval)
  {
    var v := Interleave(units, block, interval);
    InterleaveLength(units, block, interval);
    StripInterleave(units, block, interval);
    forall j: nat | j < |units| ensures UnitSlot(v, interval, j, units[j]) {
      InterleaveUnitAt(units, block, interval, j);
    }
    forall k: nat | 1 <= k <= (|units| - 1) / interval ensures BlockSlot(v, interval, k, block) {
      InterleaveBlockAt(units, block, interval, k);
    }
  }

  /**
   * Otherwise the output joins a list laid out as `Spliced` prescribes from
   * the paragraph units of `content`.
   */
  lemma InjectedShape(content: string, fragment: string, interval: nat)
    requires interval >= 1 && Truthy(fragment) && content != ""
    ensures exists v ::
              && Injected(content, fragment, interval) == Concat(v)
              && Spliced(v, Units(content), Block(fragment), interval)
  {
    PiecesFacts(content);
    InterleaveSpliced(Units(content), Block(fragment), interval);
    var v := Interleave(Units(content), Block(fragment), interval);
    assert Injected(content, fragment, interval) == Concat(v);
  }

  /** The pairing loop of lines 295-300. */
  method PairUnits(pieces: seq<string>) returns (units: seq<string>)
    ensures units == Pairs(pieces)
  {
    PairsAt(pieces, 0);
    units := [];
    var i := 0;
    while i < |pieces|
      invariant i % 2 == 0 && i <= |pieces| + 1
      invariant units == Pairs(pieces)[..i / 2]
    {
      var para := pieces[i];
      var closing := if i + 1 < |pieces| then pieces[i + 1] else "";
      PairsAt(pieces, i / 2);
      units := units + [para + closing];
      i := i + 2;
    }
  }

  /** One pass of the insertion loop, seen on the reference definition. */
  lemma InsertStep(units: seq<string>, block: string, interval: nat, i: nat, head: seq<string>)
    requires interval >= 1 && i + interval < |units|
    ensures (head + units[i..i + interval] + [block]) + Interleave(units[i + interval..], block, interval)
         == head + Interleave(units[i..], block, interval)
  {
    var rest := units[i..];
    assert rest[..interval] == units[i..i + interval];
    assert rest[interval..] == units[i + interval..];
  }

  /** One pass of the insertion loop, seen on the list being spliced. */
  lemma SpliceStep(list: seq<string>, head: seq<string>, rest: seq<string>, interval: nat, block: string)
    requires list == head + rest && interval < |rest|
    ensures list[..|head| + interval] + [block] + list[|head| + interval..]
         == (head + rest[..interval] + [block]) + rest[interval..]
  {
    assert list[..|head| + interval] == head + rest[..interval];
    assert list[|head| + interval..] == rest[interval..];
  }

  /**
   * The state of the insertion loop after `i` units have been passed:
   * `head` is the finished front of the output, `list` is `head` followed
   * by the units still to pass, and `pos` is the next insertion offset.
   */
  ghost predicate Inserting(units: seq<string>, block: string, interval: nat, i: nat, head: seq<string>, list: seq<string>, pos: int)
    requires interval >= 1
  {
    && i <= |units|
    && list == head + units[i..]
    && pos == |head| + interval
    && head + Interleave(units[i..], block, interval) == Interleave(units, block, interval)
  }

  /** One pass of the loop keeps its state. */
  lemma InsertPass(units: seq<string>, block: string, interval: nat, i: nat, head: seq<string>, list: seq<string>, pos: int)
    requires interval >= 1 && Inserting(units, block, interval, i, head, list, pos) && pos < |list|
    ensures i + interval <= |units| && 0 <= pos <= |list|
    ensures Inserting(units, block, interval, i + interval, head + units[i..i + interval] + [block],
                      list[..pos] + [block] + list[pos..], pos + interval + 1)
  {
    InsertStep(units, block, interval, i, head);
    SpliceStep(list, head, units[i..], interval, block);
    assert units[i..][..interval] == units[i..i + interval];
    assert units[i..][interval..] == units[i + interval..];
  }

  /** Once the test fails, no more than `interval` units remain and the list is finished. */
  lemma InsertDone(units: seq<string>, block: string, interval: nat, i: nat, head: seq<string>, list: seq<string>, pos: int)
    requires interval >= 1 && Inserting(units, block, interval, i, head, list, pos) && pos >= |list|
    ensures list == Interleave(units, block, interval)
  {
    InterleaveWide(units[i..], block, interval);
  }

  /**
   * The insertion loop of lines 302-306: `array_splice` into a list that
   * grows, the bound re-read on every test. `count - pos` shrinks by
   * `interval` per pass, so the loop ends whenever `interval >= 1`.
   */
  method InsertBlocks(units: seq<string>, block: string, interval: nat) returns (list: seq<string>)
    requires interval >= 1
    ensures list == Interleave(units, block, interval)
  {
    list := units;
    var pos := interval;
    ghost var head: seq<string> := [];
    ghost var i := 0;
    assert units[i..] == units;
    while pos < |list|
      invariant Inserting(units, block, interval, i, head, list, pos)
      decreases |list| - pos
    {
      InsertPass(units, block, interval, i, head, list, pos);
      head := head + units[i..i + interval] + [block];
      i := i + interval;
      list := list[..pos] + [block] + list[pos..];
      pos := pos + interval + 1;
    }
    InsertDone(units, block, interval, i, head, list, pos);
  }

  /** Lines 287-308 once the fragment and the interval have been read. */
  method InjectIntoContent(content: string, fragment: string, interval: nat) returns (out: string)
    requires interval >= 1
    ensures out == Injected(content, fragment, interval)
  {
    if !Truthy(fragment) {
      return content;
    }
    var pieces := Pieces(content);
    if pieces == [] {
      return content;
    }
    var units := PairUnits(pieces);
    var list := InsertBlocks(units, Block(fragment), interval);
    out := Concat(list);
  }

  /** Five units every two: `[A, B, F, C, D, F, E]`. */
  lemma ExampleFiveEveryTwo()
    ensures Interleave(["A", "B", "C", "D", "E"], "F", 2) == ["A", "B", "F", "C", "D", "F", "E"]
  {
  }

  /** Four units every two: no block after the last unit, `[A, B, F, C, D]`. */
  lemma ExampleFourEveryTwo()
    ensures Interleave(["A", "B", "C", "D"], "F", 2) == ["A", "B", "F", "C", "D"]
  {
  }

  /** Three units every one: `[A, F, B, F, C]`, still nothing after the last unit. */
  lemma ExampleThreeEveryOne()
    ensures Interleave(["A", "B", "C"], "F", 1) == ["A", "F", "B", "F", "C"]
  {
  }

  /** A leading closing tag shifts the pairing: it joins the text after it. */
  lemma ExampleLeadingClose()
    ensures Units("</p>A</p>") == ["</p>A", "</p>"]
  {
    var s := "</p>A</p>";
    assert StartsWithClose(s[0..]) && !StartsWithClose(s[4..]) && StartsWithClose(s[5..]);
    assert Scan(s, 9, 9) == [];
    assert s[4..5] == "A" && s[5..9] == "</p>" && s[0..4] == "</p>" && s[0..0] == "";
    assert Scan(s, 4, 5) == ["A", "</p>"];
    assert Scan(s, 4, 4) == ["A", "</p>"];
    var pieces := ["</p>", "A", "</p>"];
    assert Pieces(s) == pieces;
    assert pieces[2..] == ["</p>"];
    assert pieces[0] + pieces[1] == "</p>A";
    assert Pairs(pieces[2..]) == ["</p>"];
    assert Pairs(pieces) == ["</p>A", "</p>"];
  }
}
