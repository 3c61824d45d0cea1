/** Parsing of a "Code Object Target Identification" string, as defined in the
    AMDGPU backend user guide of LLVM (AMDGPUUsage):
    `Arch-Vendor-OS-Environ-Processor[:Feature...]`. Every component of the
    result is a borrowed slice of the input string, written as a pair of
    indices into it. */
module TargetId {
  import opened Types

  /** An `llvm::StringRef` into the identifier string: the characters at
      positions `Start` up to (not including) `End`. */
  datatype Slice = Slice(Start: nat, End: nat)

  datatype TargetIdentifier = TargetIdentifier(
    Arch: Slice,
    Vendor: Slice,
    OS: Slice,
    Environ: Slice,
    Processor: Slice,
    Features: seq<Slice>)

  predicate InBounds(s: string, sl: Slice)
  {
    sl.Start <= sl.End <= |s|
  }

  /** Every component of `t` is a slice of `s`. */
  predicate Borrows(s: string, t: TargetIdentifier)
  {
    && InBounds(s, t.Arch) && InBounds(s, t.Vendor) && InBounds(s, t.OS)
    && InBounds(s, t.Environ) && InBounds(s, t.Processor)
    && AllInBounds(s, t.Features)
  }

  predicate AllInBounds(s: string, sls: seq<Slice>)
  {
    forall i :: 0 <= i < |sls| ==> InBounds(s, sls[i])
  }

  function Text(s: string, sl: Slice): string
    requires InBounds(s, sl)
  {
    s[sl.Start..sl.End]
  }

  function Texts(s: string, sls: seq<Slice>): (r: seq<string>)
    requires AllInBounds(s, sls)
    ensures |r| == |sls|
  {
    if sls == [] then [] else [Text(s, sls[0])] + Texts(s, sls[1..])
  }

  /** `:F1:F2...` for the features `F1, F2, ...`. */
  function FeatureSuffix(features: seq<string>): string
  {
    if features == [] then [] else [':'] + features[0] + FeatureSuffix(features[1..])
  }

  /** The pieces joined with `:` in between. */
  function JoinColon(pieces: seq<string>): string
    requires |pieces| >= 1
  {
    pieces[0] + FeatureSuffix(pieces[1..])
  }

  /** The textual form of an identifier given its components. */
  function Format(arch: string, vendor: string, os: string, environ: string,
                  processor: string, features: seq<string>): string
  {
    arch + ['-'] + (vendor + ['-'] + (os + ['-'] + (environ + ['-'] + (processor + FeatureSuffix(features)))))
  }

  /** The textual form of a parsed identifier, read back from its slices. */
  function Render(s: string, t: TargetIdentifier): string
    requires Borrows(s, t)
  {
    Format(Text(s, t.Arch), Text(s, t.Vendor), Text(s, t.OS), Text(s, t.Environ),
           Text(s, t.Processor), Texts(s, t.Features))
  }

  /** The number of occurrences of `c` in `s`. */
  function Count(s: string, c: char): nat
  {
    if s == [] then 0 else (if s[0] == c then 1 else 0) + Count(s[1..], c)
  }

  /** The position of the first `c` at or after `from`, or |s| if there is none. */
  function Find(s: string, c: char, from: nat): (i: nat)
    requires from <= |s|
    ensures from <= i <= |s|
    decreases |s| - from
  {
    if from == |s| || s[from] == c then from else Find(s, c, from + 1)
  }

  /** `Find` returns the first `c` at or after `from`. */
  lemma {:induction false} FindFirst(s: string, c: char, from: nat)
    requires from <= |s|
    ensures var i := Find(s, c, from);
            (i < |s| ==> s[i] == c) && forall k :: from <= k < i ==> s[k] != c
    decreases |s| - from
  {
    if from < |s| && s[from] != c {
      FindFirst(s, c, from + 1);
    }
  }

  /** `StringRef::split(Parts, c)` on `s[from..]`, keeping empty parts: the
      pieces between consecutive occurrences of `c`. */
  function SplitAt(s: string, c: char, from: nat): (parts: seq<Slice>)
    requires from <= |s|
    ensures |parts| >= 1
    decreases |s| - from
  {
    var i := Find(s, c, from);
    if i == |s| then [Slice(from, |s|)] else [Slice(from, i)] + SplitAt(s, c, i + 1)
  }

  /** `parseTargetIdentifier(IdentStr, Ident)`: the string is split on `-`
      into at most five components (the fifth keeps any further `-`); fewer
      than five is an error. The fifth component is split on `:`; its first
      piece is the processor and the rest, in order, are the features.
      Empty components are accepted. */
  function ParseTargetIdentifier(s: string): (r: Result<TargetIdentifier>)
    ensures r.Err? ==> r.status == InvalidInput
  {
    var h0 := Find(s, '-', 0);
    if h0 == |s| then Err(InvalidInput) else
    var h1 := Find(s, '-', h0 + 1);
    if h1 == |s| then Err(InvalidInput) else
    var h2 := Find(s, '-', h1 + 1);
    if h2 == |s| then Err(InvalidInput) else
    var h3 := Find(s, '-', h2 + 1);
    if h3 == |s| then Err(InvalidInput) else
    var parts := SplitAt(s, ':', h3 + 1);
    Ok(TargetIdentifier(Slice(0, h0), Slice(h0 + 1, h1), Slice(h1 + 1, h2), Slice(h2 + 1, h3),
                        parts[0], parts[1..]))
  }

  // ---- Lemmas ----

  lemma SplitAround(s: string, lo: nat, i: nat, c: char)
    requires lo <= i < |s| && s[i] == c
    ensures s[lo..] == s[lo..i] + [c] + s[i + 1..]
  {
    assert s[lo..] == s[lo..i] + s[i..];
    assert s[i..] == [c] + s[i + 1..];
  }

  lemma TextsCons(s: string, sl: Slice, rest: seq<Slice>)
    requires InBounds(s, sl) && AllInBounds(s, rest)
    ensures Texts(s, [sl] + rest) == [Text(s, sl)] + Texts(s, rest)
  {
    assert ([sl] + rest)[1..] == rest;
  }

  lemma TextsSingle(s: string, sl: Slice)
    requires InBounds(s, sl)
    ensures Texts(s, [sl]) == [Text(s, sl)]
  {
    assert [sl][1..] == [];
  }

  lemma JoinColonCons(x: string, rest: seq<string>)
    requires |rest| >= 1
    ensures JoinColon([x] + rest) == x + [':'] + JoinColon(rest)
  {
    assert ([x] + rest)[1..] == rest;
  }

  /** The pieces of `SplitAt` are slices of `s[from..]`, and joining them
      with `:` gives back the string it split. */
  lemma {:induction false} SplitJoin(s: string, from: nat)
    requires from <= |s|
    ensures var parts := SplitAt(s, ':', from);
            && AllInBounds(s, parts)
            && JoinColon(Texts(s, parts)) == s[from..]
    decreases |s| - from
  {
    var i := Find(s, ':', from);
    FindFirst(s, ':', from);
    if i == |s| {
      assert SplitAt(s, ':', from) == [Slice(from, |s|)];
      TextsSingle(s, Slice(from, |s|));
    } else {
      var rest := SplitAt(s, ':', i + 1);
      assert SplitAt(s, ':', from) == [Slice(from, i)] + rest;
      SplitJoin(s, i + 1);
      TextsCons(s, Slice(from, i), rest);
      JoinColonCons(s[from..i], Texts(s, rest));
      SplitAround(s, from, i, ':');
    }
  }

  /** Round trip, parse then print: joining the components of a successful
      parse with `-` and `:` reproduces the input string. */
  lemma ParseRender(s: string)
    requires ParseTargetIdentifier(s).Ok?
    ensures var t := ParseTargetIdentifier(s).value;
            Borrows(s, t) && Render(s, t) == s
  {
    var h0 := Find(s, '-', 0);
    var h1 := Find(s, '-', h0 + 1);
    var h2 := Find(s, '-', h1 + 1);
    var h3 := Find(s, '-', h2 + 1);
    var parts := SplitAt(s, ':', h3 + 1);
    FindFirst(s, '-', 0);
    FindFirst(s, '-', h0 + 1);
    FindFirst(s, '-', h1 + 1);
    FindFirst(s, '-', h2 + 1);
    assert ParseTargetIdentifier(s).value
        == TargetIdentifier(Slice(0, h0), Slice(h0 + 1, h1), Slice(h1 + 1, h2), Slice(h2 + 1, h3),
                            parts[0], parts[1..]);
    RenderPieces(s, h0, h1, h2, h3);
  }

  /** `Render` of the identifier assembled from four `-` positions and the
      `:`-pieces of the rest. */
  lemma RenderPieces(s: string, h0: nat, h1: nat, h2: nat, h3: nat)
    requires h0 < h1 < h2 < h3 < |s|
    requires s[h0] == '-' && s[h1] == '-' && s[h2] == '-' && s[h3] == '-'
    ensures var parts := SplitAt(s, ':', h3 + 1);
            var t := TargetIdentifier(Slice(0, h0), Slice(h0 + 1, h1), Slice(h1 + 1, h2), Slice(h2 + 1, h3),
                                      parts[0], parts[1..]);
            Borrows(s, t) && Render(s, t) == s
  {
    var parts := SplitAt(s, ':', h3 + 1);
    RenderTail(s, h3 + 1);
    RenderParts(s, h0, h1, h2, h3, parts[0], parts[1..]);
  }

  /** `Render` of the identifier assembled from four `-` positions and any
      slices that re-join to the rest of the string. */
  lemma RenderParts(s: string, h0: nat, h1: nat, h2: nat, h3: nat, processor: Slice, features: seq<Slice>)
    requires h0 < h1 < h2 < h3 < |s|
    requires s[h0] == '-' && s[h1] == '-' && s[h2] == '-' && s[h3] == '-'
    requires InBounds(s, processor) && AllInBounds(s, features)
    requires Text(s, processor) + FeatureSuffix(Texts(s, features)) == s[h3 + 1..]
    ensures var t := TargetIdentifier(Slice(0, h0), Slice(h0 + 1, h1), Slice(h1 + 1, h2), Slice(h2 + 1, h3),
                                      processor, features);
            Borrows(s, t) && Render(s, t) == s
  {
    var t := TargetIdentifier(Slice(0, h0), Slice(h0 + 1, h1), Slice(h1 + 1, h2), Slice(h2 + 1, h3),
                              processor, features);
    assert Borrows(s, t);
    assert Render(s, t) == s by {
      assert Render(s, t) == Format(s[0..h0], s[h0 + 1..h1], s[h1 + 1..h2], s[h2 + 1..h3],
                                    Text(s, processor), Texts(s, features));
      JoinAtHyphens(s, h0, h1, h2, h3);
    }
  }

  /** The processor and the features read back from the `:`-pieces of
      `s[from..]` re-join to it. */
  lemma RenderTail(s: string, from: nat)
    requires from <= |s|
    ensures var parts := SplitAt(s, ':', from);
            && InBounds(s, parts[0]) && AllInBounds(s, parts[1..])
            && Text(s, parts[0]) + FeatureSuffix(Texts(s, parts[1..])) == s[from..]
  {
    var parts := SplitAt(s, ':', from);
    SplitJoin(s, from);
    assert parts == [parts[0]] + parts[1..];
    TextsCons(s, parts[0], parts[1..]);
  }

  /** A string cut at four `-` positions is the concatenation of the pieces. */
  lemma JoinAtHyphens(s: string, h0: nat, h1: nat, h2: nat, h3: nat)
    requires h0 < h1 < h2 < h3 < |s|
    requires s[h0] == '-' && s[h1] == '-' && s[h2] == '-' && s[h3] == '-'
    ensures s == s[0..h0] + ['-'] + (s[h0 + 1..h1] + ['-'] + (s[h1 + 1..h2] + ['-'] + (s[h2 + 1..h3] + ['-'] + s[h3 + 1..])))
  {
    JoinTwo(s, h1 + 1, h2, h3);
    JoinTwo(s, 0, h0, h1);
    assert s[0..] == s;
  }

  lemma JoinTwo(s: string, lo: nat, i: nat, j: nat)
    requires lo <= i < j < |s| && s[i] == '-' && s[j] == '-'
    ensures s[lo..] == s[lo..i] + ['-'] + (s[i + 1..j] + ['-'] + s[j + 1..])
  {
    SplitAround(s, i + 1, j, '-');
    SplitAround(s, lo, i, '-');
  }

  lemma {:induction false} CountAppend(a: string, b: string, c: char)
    ensures Count(a + b, c) == Count(a, c) + Count(b, c)
  {
    if a == [] {
      assert a + b == b;
    } else {
      assert (a + b)[1..] == a[1..] + b;
      CountAppend(a[1..], b, c);
    }
  }

  lemma {:induction false} CountAbsent(a: string, c: char)
    requires c !in a
    ensures Count(a, c) == 0
  {
    if a != [] {
      CountAbsent(a[1..], c);
    }
  }

  /** How `Find` splits the occurrences of `c` in `s[from..]`. */
  lemma FindCount(s: string, c: char, from: nat)
    requires from <= |s|
    ensures var i := Find(s, c, from);
            Count(s[from..], c) == if i == |s| then 0 else 1 + Count(s[i + 1..], c)
  {
    var i := Find(s, c, from);
    FindFirst(s, c, from);
    assert s[from..] == s[from..i] + s[i..];
    CountAppend(s[from..i], s[i..], c);
    CountAbsent(s[from..i], c);
    if i < |s| {
      assert s[i..] == [c] + s[i + 1..];
      CountAppend([c], s[i + 1..], c);
    }
  }

  /** Parsing fails exactly when the string has fewer than four `-`. */
  lemma ParseFailsIff(s: string)
    ensures ParseTargetIdentifier(s).Err? <==> Count(s, '-') < 4
  {
    ParseFailsCut(s);
    CutCount(s, '-', 0, 4);
    assert s[0..] == s;
  }

  /** Parsing fails exactly when there is no fourth `-`. */
  lemma ParseFailsCut(s: string)
    ensures ParseTargetIdentifier(s).Err? <==> Cut(s, '-', 0, 4) == |s|
  {
    var h0 := Find(s, '-', 0);
    assert Cut(s, '-', 0, 4) == if h0 == |s| then h0 else Cut(s, '-', h0 + 1, 3);
    if h0 < |s| {
      var h1 := Find(s, '-', h0 + 1);
      assert Cut(s, '-', h0 + 1, 3) == if h1 == |s| then h1 else Cut(s, '-', h1 + 1, 2);
      if h1 < |s| {
        var h2 := Find(s, '-', h1 + 1);
        assert Cut(s, '-', h1 + 1, 2) == if h2 == |s| then h2 else Cut(s, '-', h2 + 1, 1);
        if h2 < |s| {
          assert Cut(s, '-', h2 + 1, 1) == Find(s, '-', h2 + 1);
        }
      }
    }
  }

  /** The position of the `n`-th `c` at or after `from`, or |s| if there are
      fewer than `n`. */
  function Cut(s: string, c: char, from: nat, n: nat): (i: nat)
    requires from <= |s| && n >= 1
    ensures from <= i <= |s|
    decreases n
  {
    var i := Find(s, c, from);
    if n == 1 || i == |s| then i else Cut(s, c, i + 1, n - 1)
  }

  lemma {:induction false} CutCount(s: string, c: char, from: nat, n: nat)
    requires from <= |s| && n >= 1
    ensures Cut(s, c, from, n) == |s| <==> Count(s[from..], c) < n
    decreases n
  {
    var i := Find(s, c, from);
    FindCount(s, c, from);
    if n > 1 && i < |s| {
      CutCount(s, c, i + 1, n - 1);
    }
  }

  /** `t` occurs in `s` at position `from`. */
  predicate Placed(s: string, from: nat, t: string)
    decreases |t|
  {
    from + |t| <= |s| && (t == [] || (s[from] == t[0] && Placed(s, from + 1, t[1..])))
  }

  lemma {:induction false} PlacedSuffix(s: string, from: nat)
    requires from <= |s|
    ensures Placed(s, from, s[from..])
    decreases |s| - from
  {
    if from < |s| {
      PlacedSuffix(s, from + 1);
      assert s[from..][1..] == s[from + 1..];
    }
  }

  lemma PlacedSelf(s: string)
    ensures Placed(s, 0, s)
  {
    PlacedSuffix(s, 0);
    assert s[0..] == s;
  }

  lemma {:induction false} PlacedAt(s: string, from: nat, t: string, k: nat)
    requires Placed(s, from, t) && k < |t|
    ensures s[from + k] == t[k]
    decreases k
  {
    if k > 0 {
      PlacedAt(s, from + 1, t[1..], k - 1);
    }
  }

  lemma {:induction false} PlacedConcat(s: string, from: nat, a: string, b: string)
    requires Placed(s, from, a + b)
    ensures Placed(s, from, a) && Placed(s, from + |a|, b)
    decreases |a|
  {
    if a == [] {
      assert a + b == b;
    } else {
      assert (a + b)[1..] == a[1..] + b;
      PlacedConcat(s, from + 1, a[1..], b);
    }
  }

  lemma PlacedText(s: string, from: nat, t: string, to: nat)
    requires Placed(s, from, t) && to == from + |t|
    ensures InBounds(s, Slice(from, to)) && Text(s, Slice(from, to)) == t
  {
    forall k | 0 <= k < |t| ensures s[from..from + |t|][k] == t[k] {
      PlacedAt(s, from, t, k);
    }
  }

  /** `Find` stops right after a piece free of `c`, at a `c` or at the end. */
  lemma {:induction false} FindPlaced(s: string, c: char, from: nat, piece: string)
    requires Placed(s, from, piece) && c !in piece
    requires from + |piece| < |s| ==> s[from + |piece|] == c
    ensures Find(s, c, from) == from + |piece|
    decreases |piece|
  {
    if piece != [] {
      assert piece[0] in piece;
      assert forall x :: x in piece[1..] ==> x in piece;
      FindPlaced(s, c, from + 1, piece[1..]);
    }
  }

  /** One component at position `from`, ending at `h`, then the separator
      `c`, then `rest`. */
  lemma FieldSplit(s: string, c: char, from: nat, field: string, rest: string, h: nat)
    requires Placed(s, from, field + [c] + rest) && h == from + |field|
    ensures h < |s| && s[h] == c
    ensures Placed(s, from, field) && Placed(s, h + 1, rest)
  {
    PlacedConcat(s, from, field + [c], rest);
    PlacedConcat(s, from, field, [c]);
  }

  /** The text of a component followed by a separator. */
  lemma FieldText(s: string, c: char, from: nat, field: string, rest: string, h: nat)
    requires Placed(s, from, field + [c] + rest) && h == from + |field|
    ensures h < |s| && Text(s, Slice(from, h)) == field
    ensures Placed(s, h + 1, rest)
  {
    FieldSplit(s, c, from, field, rest, h);
    PlacedText(s, from, field, h);
  }

  /** `Find` stops at the separator that ends a component free of it. */
  lemma FieldPlaced(s: string, c: char, from: nat, field: string, rest: string, h: nat)
    requires Placed(s, from, field + [c] + rest) && h == from + |field| && c !in field
    ensures Find(s, c, from) == h < |s|
    ensures Placed(s, h + 1, rest)
  {
    FieldSplit(s, c, from, field, rest, h);
    FindPlaced(s, c, from, field);
  }

  /** Consecutive slices holding `pieces` one separator apart, the first
      starting at `from`. */
  function PieceSlices(from: nat, pieces: seq<string>): (r: seq<Slice>)
    ensures |r| == |pieces|
    decreases |pieces|
  {
    if pieces == [] then []
    else [Slice(from, from + |pieces[0]|)] + PieceSlices(from + |pieces[0]| + 1, pieces[1..])
  }

  /** The slices at which `Format` places each component. */
  function Layout(arch: string, vendor: string, os: string, environ: string,
                  processor: string, features: seq<string>): TargetIdentifier
  {
    var h0 := |arch|;
    var h1 := h0 + 1 + |vendor|;
    var h2 := h1 + 1 + |os|;
    var h3 := h2 + 1 + |environ|;
    var h4 := h3 + 1 + |processor|;
    TargetIdentifier(Slice(0, h0), Slice(h0 + 1, h1), Slice(h1 + 1, h2), Slice(h2 + 1, h3),
                     Slice(h3 + 1, h4), PieceSlices(h4 + 1, features))
  }

  /** No piece contains `c`. This is the recursive, piece-by-piece form of
      `forall i :: c !in pieces[i]` (`FreeAll` links the two), which the
      inductive proofs about the feature list unfold one piece at a time. */
  predicate Free(c: char, pieces: seq<string>)
    decreases |pieces|
  {
    pieces == [] || (c !in pieces[0] && Free(c, pieces[1..]))
  }

  lemma {:induction false} FreeAll(c: char, pieces: seq<string>)
    requires forall i :: 0 <= i < |pieces| ==> c !in pieces[i]
    ensures Free(c, pieces)
    decreases |pieces|
  {
    if pieces != [] {
      assert forall i :: 0 <= i < |pieces[1..]| ==> pieces[1..][i] == pieces[i + 1];
      FreeAll(c, pieces[1..]);
    }
  }

  /** A processor and its feature suffix, all free of `:` except for the
      separators, fill `s` from `from` to the end. */
  predicate SplitReady(s: string, from: nat, processor: string, features: seq<string>)
  {
    && Placed(s, from, processor + FeatureSuffix(features))
    && from + |processor + FeatureSuffix(features)| == |s|
    && ':' !in processor && Free(':', features)
  }

  /** `SplitAt(s, ':', from)` when a processor and its feature suffix fill
      `s` from `from` to the end. */
  lemma {:induction false} SplitPlaced(s: string, from: nat, processor: string, features: seq<string>)
    requires SplitReady(s, from, processor, features)
    ensures SplitAt(s, ':', from)
         == [Slice(from, from + |processor|)] + PieceSlices(from + |processor| + 1, features)
    decreases features, 1
  {
    if features == [] {
      SplitLast(s, from, processor, features);
    } else {
      SplitCons(s, from, processor, features);
    }
  }

  /** The inductive step of `SplitPlaced`. */
  lemma {:induction false} SplitCons(s: string, from: nat, processor: string, features: seq<string>)
    requires SplitReady(s, from, processor, features) && features != []
    ensures SplitAt(s, ':', from)
         == [Slice(from, from + |processor|)] + PieceSlices(from + |processor| + 1, features)
    decreases features, 0
  {
    var i := from + |processor|;
    assert i < |s| && SplitAt(s, ':', from) == [Slice(from, i)] + SplitAt(s, ':', i + 1)
        && SplitReady(s, i + 1, features[0], features[1..]) by {
      SplitNext(s, from, processor, features);
    }
    var f := features[0];
    assert PieceSlices(i + 1, features)
        == [Slice(i + 1, i + 1 + |f|)] + PieceSlices(i + 1 + |f| + 1, features[1..]);
    assert SplitAt(s, ':', i + 1) == PieceSlices(i + 1, features) by {
      SplitPlaced(s, i + 1, f, features[1..]);
    }
  }

  /** The last step of `SplitAt`: a piece free of `:` up to the end. */
  lemma SplitLast(s: string, from: nat, piece: string, features: seq<string>)
    requires SplitReady(s, from, piece, features) && features == []
    ensures SplitAt(s, ':', from)
         == [Slice(from, from + |piece|)] + PieceSlices(from + |piece| + 1, features)
  {
    assert piece + FeatureSuffix(features) == piece;
    FindPlaced(s, ':', from, piece);
  }

  /** One step of `SplitAt` over a piece free of `:` followed by `:`. */
  lemma SplitNext(s: string, from: nat, piece: string, features: seq<string>)
    requires SplitReady(s, from, piece, features) && features != []
    ensures var i := from + |piece|;
            && i < |s| && SplitAt(s, ':', from) == [Slice(from, i)] + SplitAt(s, ':', i + 1)
            && SplitReady(s, i + 1, features[0], features[1..])
  {
    var rest := features[0] + FeatureSuffix(features[1..]);
    assert piece + FeatureSuffix(features) == piece + [':'] + rest;
    FieldPlaced(s, ':', from, piece, rest, from + |piece|);
  }

  /** The features of a formatted identifier read back from their slices. */
  lemma {:induction false} TextsPlaced(s: string, at: nat, features: seq<string>)
    requires Placed(s, at, FeatureSuffix(features))
    ensures var sls := PieceSlices(at + 1, features);
            AllInBounds(s, sls) && Texts(s, sls) == features
    decreases features
  {
    if features != [] {
      var f := features[0];
      var sl := Slice(at + 1, at + 1 + |f|);
      FeatureText(s, at, f, FeatureSuffix(features[1..]));
      TextsPlaced(s, at + 1 + |f|, features[1..]);
      var rest := PieceSlices(at + 1 + |f| + 1, features[1..]);
      assert PieceSlices(at + 1, features) == [sl] + rest;
      TextsCons(s, sl, rest);
      assert features == [f] + features[1..];
    }
  }

  /** The text of the first feature of a feature suffix. */
  lemma FeatureText(s: string, at: nat, f: string, rest: string)
    requires Placed(s, at, [':'] + f + rest)
    ensures InBounds(s, Slice(at + 1, at + 1 + |f|)) && Text(s, Slice(at + 1, at + 1 + |f|)) == f
    ensures Placed(s, at + 1 + |f|, rest)
  {
    PlacedConcat(s, at, [':'] + f, rest);
    PlacedConcat(s, at, [':'], f);
    PlacedText(s, at + 1, f, at + 1 + |f|);
  }

  /** The parse of a string in terms of where its first four `-` are and
      how the rest splits at `:`. */
  lemma ParseOfSplit(s: string, h0: nat, h1: nat, h2: nat, h3: nat, t: TargetIdentifier)
    requires h0 < |s| && Find(s, '-', 0) == h0
    requires h0 < h1 < |s| && Find(s, '-', h0 + 1) == h1
    requires h1 < h2 < |s| && Find(s, '-', h1 + 1) == h2
    requires h2 < h3 < |s| && Find(s, '-', h2 + 1) == h3
    requires t.Arch == Slice(0, h0) && t.Vendor == Slice(h0 + 1, h1)
    requires t.OS == Slice(h1 + 1, h2) && t.Environ == Slice(h2 + 1, h3)
    requires SplitAt(s, ':', h3 + 1) == [t.Processor] + t.Features
    ensures ParseTargetIdentifier(s) == Ok(t)
  {
    var parts := SplitAt(s, ':', h3 + 1);
    assert parts[0] == t.Processor && parts[1..] == t.Features;
  }

  /** Where `Find` and `SplitAt` stop in a string that holds a formatted
      identifier. */
  lemma CutsPlaced(s: string, arch: string, vendor: string, os: string, environ: string,
                   processor: string, features: seq<string>)
    requires Placed(s, 0, Format(arch, vendor, os, environ, processor, features))
    requires |s| == |Format(arch, vendor, os, environ, processor, features)|
    requires '-' !in arch && '-' !in vendor && '-' !in os && '-' !in environ
    requires ':' !in processor
    ensures var h0 := |arch|;
            var h1 := h0 + 1 + |vendor|;
            var h2 := h1 + 1 + |os|;
            var h3 := h2 + 1 + |environ|;
            var h4 := h3 + 1 + |processor|;
            && Find(s, '-', 0) == h0 < |s| && Find(s, '-', h0 + 1) == h1 < |s|
            && Find(s, '-', h1 + 1) == h2 < |s| && Find(s, '-', h2 + 1) == h3 < |s|
  {
    var tail := processor + FeatureSuffix(features);
    var r3 := environ + ['-'] + tail;
    var r2 := os + ['-'] + r3;
    var r1 := vendor + ['-'] + r2;
    var h0 := |arch|;
    var h1 := h0 + 1 + |vendor|;
    var h2 := h1 + 1 + |os|;
    var h3 := h2 + 1 + |environ|;
    TwoFieldsPlaced(s, 0, arch, vendor, r2, h0, h1);
    TwoFieldsPlaced(s, h1 + 1, os, environ, tail, h2, h3);
  }

  /** `Find` on two `-`-terminated components in a row. */
  lemma TwoFieldsPlaced(s: string, from: nat, a: string, b: string, rest: string, ha: nat, hb: nat)
    requires Placed(s, from, a + ['-'] + (b + ['-'] + rest))
    requires ha == from + |a| && hb == ha + 1 + |b| && '-' !in a && '-' !in b
    ensures Find(s, '-', from) == ha < |s| && Find(s, '-', ha + 1) == hb < |s|
    ensures Placed(s, hb + 1, rest)
  {
    FieldPlaced(s, '-', from, a, b + ['-'] + rest, ha);
    FieldPlaced(s, '-', ha + 1, b, rest, hb);
  }

  /** `t` placed at `from` is the part of `s` after the first four
      components of a formatted identifier placed at 0. */
  lemma TailPlaced(s: string, arch: string, vendor: string, os: string, environ: string,
                   t: string, from: nat)
    requires Placed(s, 0, arch + ['-'] + (vendor + ['-'] + (os + ['-'] + (environ + ['-'] + t))))
    requires from == |arch| + 1 + |vendor| + 1 + |os| + 1 + |environ| + 1
    ensures Placed(s, from, t)
  {
    var r3 := environ + ['-'] + t;
    var r2 := os + ['-'] + r3;
    var r1 := vendor + ['-'] + r2;
    var h0 := |arch|;
    var h1 := h0 + 1 + |vendor|;
    var h2 := h1 + 1 + |os|;
    FieldSplit(s, '-', 0, arch, r1, h0);
    FieldSplit(s, '-', h0 + 1, vendor, r2, h1);
    FieldSplit(s, '-', h1 + 1, os, r3, h2);
    FieldSplit(s, '-', h2 + 1, environ, t, from - 1);
  }

  /** Where `SplitAt` cuts the fifth component of a string that holds a
      formatted identifier. */
  lemma TailSplit(s: string, arch: string, vendor: string, os: string, environ: string,
                  processor: string, features: seq<string>)
    requires Placed(s, 0, Format(arch, vendor, os, environ, processor, features))
    requires |s| == |Format(arch, vendor, os, environ, processor, features)|
    requires ':' !in processor
    requires forall i :: 0 <= i < |features| ==> ':' !in features[i]
    ensures var h3 := |arch| + 1 + |vendor| + 1 + |os| + 1 + |environ|;
            var h4 := h3 + 1 + |processor|;
            SplitAt(s, ':', h3 + 1) == [Slice(h3 + 1, h4)] + PieceSlices(h4 + 1, features)
  {
    var h3 := |arch| + 1 + |vendor| + 1 + |os| + 1 + |environ|;
    TailPlaced(s, arch, vendor, os, environ, processor + FeatureSuffix(features), h3 + 1);
    FreeAll(':', features);
    SplitPlaced(s, h3 + 1, processor, features);
  }

  /** Print then parse: a string built from components free of the
      separators that delimit them parses to the slices where `Format` put
      each component. */
  lemma FormatParse(arch: string, vendor: string, os: string, environ: string,
                    processor: string, features: seq<string>)
    requires '-' !in arch && '-' !in vendor && '-' !in os && '-' !in environ
    requires ':' !in processor
    requires forall i :: 0 <= i < |features| ==> ':' !in features[i]
    ensures ParseTargetIdentifier(Format(arch, vendor, os, environ, processor, features))
         == Ok(Layout(arch, vendor, os, environ, processor, features))
  {
    var s := Format(arch, vendor, os, environ, processor, features);
    PlacedSelf(s);
    PlacedParse(s, arch, vendor, os, environ, processor, features);
  }

  /** A string that holds a formatted identifier parses to the slices of
      `Layout`. */
  lemma PlacedParse(s: string, arch: string, vendor: string, os: string, environ: string,
                    processor: string, features: seq<string>)
    requires Placed(s, 0, Format(arch, vendor, os, environ, processor, features))
    requires |s| == |Format(arch, vendor, os, environ, processor, features)|
    requires '-' !in arch && '-' !in vendor && '-' !in os && '-' !in environ
    requires ':' !in processor
    requires forall i :: 0 <= i < |features| ==> ':' !in features[i]
    ensures ParseTargetIdentifier(s) == Ok(Layout(arch, vendor, os, environ, processor, features))
  {
    CutsPlaced(s, arch, vendor, os, environ, processor, features);
    TailSplit(s, arch, vendor, os, environ, processor, features);
    ParseLayout(s, arch, vendor, os, environ, processor, features);
  }

  /** The parse of a string cut where a formatted identifier is cut. */
  lemma ParseLayout(s: string, arch: string, vendor: string, os: string, environ: string,
                    processor: string, features: seq<string>)
    requires var h0 := |arch|;
             var h1 := h0 + 1 + |vendor|;
             var h2 := h1 + 1 + |os|;
             var h3 := h2 + 1 + |environ|;
             var h4 := h3 + 1 + |processor|;
             && Find(s, '-', 0) == h0 < |s| && Find(s, '-', h0 + 1) == h1 < |s|
             && Find(s, '-', h1 + 1) == h2 < |s| && Find(s, '-', h2 + 1) == h3 < |s|
             && SplitAt(s, ':', h3 + 1) == [Slice(h3 + 1, h4)] + PieceSlices(h4 + 1, features)
    ensures ParseTargetIdentifier(s) == Ok(Layout(arch, vendor, os, environ, processor, features))
  {
    var h0 := |arch|;
    var h1 := h0 + 1 + |vendor|;
    var h2 := h1 + 1 + |os|;
    var h3 := h2 + 1 + |environ|;
    var h4 := h3 + 1 + |processor|;
    LayoutSlices(arch, vendor, os, environ, processor, features);
    ParseOfSplit(s, h0, h1, h2, h3, Layout(arch, vendor, os, environ, processor, features));
  }

  lemma LayoutSlices(arch: string, vendor: string, os: string, environ: string,
                     processor: string, features: seq<string>)
    ensures var h0 := |arch|;
            var h1 := h0 + 1 + |vendor|;
            var h2 := h1 + 1 + |os|;
            var h3 := h2 + 1 + |environ|;
            var h4 := h3 + 1 + |processor|;
            Layout(arch, vendor, os, environ, processor, features)
            == TargetIdentifier(Slice(0, h0), Slice(h0 + 1, h1), Slice(h1 + 1, h2), Slice(h2 + 1, h3),
                                Slice(h3 + 1, h4), PieceSlices(h4 + 1, features))
  {
  }

  /** The first four components of a formatted identifier held by `s`. */
  lemma HeadTexts(s: string, arch: string, vendor: string, os: string, environ: string, tail: string,
                   r2: string, h0: nat, h1: nat, h2: nat, h3: nat)
    requires r2 == os + ['-'] + (environ + ['-'] + tail)
    requires Placed(s, 0, arch + ['-'] + (vendor + ['-'] + r2))
    requires h0 == |arch| && h1 == h0 + 1 + |vendor| && h2 == h1 + 1 + |os| && h3 == h2 + 1 + |environ|
    ensures && h3 < |s|
            && Text(s, Slice(0, h0)) == arch && Text(s, Slice(h0 + 1, h1)) == vendor
            && Text(s, Slice(h1 + 1, h2)) == os && Text(s, Slice(h2 + 1, h3)) == environ
  {
    TwoFieldsText(s, 0, arch, vendor, r2, h0, h1);
    TwoFieldsText(s, h1 + 1, os, environ, tail, h2, h3);
  }

  /** The texts of two `-`-terminated components in a row. */
  lemma TwoFieldsText(s: string, from: nat, a: string, b: string, rest: string, ha: nat, hb: nat)
    requires Placed(s, from, a + ['-'] + (b + ['-'] + rest))
    requires ha == from + |a| && hb == ha + 1 + |b|
    ensures hb < |s| && Text(s, Slice(from, ha)) == a && Text(s, Slice(ha + 1, hb)) == b
    ensures Placed(s, hb + 1, rest)
  {
    FieldText(s, '-', from, a, b + ['-'] + rest, ha);
    FieldText(s, '-', ha + 1, b, rest, hb);
  }

  /** The processor and the features of a formatted identifier, placed in
      `s` at `from`. */
  lemma FifthTexts(s: string, from: nat, processor: string, features: seq<string>,
                    p: Slice, fs: seq<Slice>)
    requires Placed(s, from, processor + FeatureSuffix(features))
    requires p == Slice(from, from + |processor|) && fs == PieceSlices(from + |processor| + 1, features)
    ensures && InBounds(s, p) && Text(s, p) == processor
            && AllInBounds(s, fs) && Texts(s, fs) == features
  {
    PlacedConcat(s, from, processor, FeatureSuffix(features));
    PlacedText(s, from, processor, from + |processor|);
    TextsPlaced(s, from + |processor|, features);
  }

  /** The components of a formatted identifier held by `s`, read back from
      the slices of `Layout`. */
  lemma TextsOfLayout(s: string, arch: string, vendor: string, os: string, environ: string,
                      processor: string, features: seq<string>)
    requires Placed(s, 0, Format(arch, vendor, os, environ, processor, features))
    ensures var t := Layout(arch, vendor, os, environ, processor, features);
            && Borrows(s, t)
            && Text(s, t.Arch) == arch && Text(s, t.Vendor) == vendor
            && Text(s, t.OS) == os && Text(s, t.Environ) == environ
            && Text(s, t.Processor) == processor && Texts(s, t.Features) == features
  {
    HeadOfLayout(s, arch, vendor, os, environ, processor, features);
    FifthOfLayout(s, arch, vendor, os, environ, processor, features);
  }

  lemma HeadOfLayout(s: string, arch: string, vendor: string, os: string, environ: string,
                     processor: string, features: seq<string>)
    requires Placed(s, 0, Format(arch, vendor, os, environ, processor, features))
    ensures var t := Layout(arch, vendor, os, environ, processor, features);
            && InBounds(s, t.Arch) && InBounds(s, t.Vendor) && InBounds(s, t.OS) && InBounds(s, t.Environ)
            && Text(s, t.Arch) == arch && Text(s, t.Vendor) == vendor
            && Text(s, t.OS) == os && Text(s, t.Environ) == environ
  {
    LayoutSlices(arch, vendor, os, environ, processor, features);
    var tail := processor + FeatureSuffix(features);
    var h0 := |arch|;
    var h1 := h0 + 1 + |vendor|;
    var h2 := h1 + 1 + |os|;
    HeadTexts(s, arch, vendor, os, environ, tail, os + ['-'] + (environ + ['-'] + tail),
              h0, h1, h2, h2 + 1 + |environ|);
  }

  lemma FifthOfLayout(s: string, arch: string, vendor: string, os: string, environ: string,
                      processor: string, features: seq<string>)
    requires Placed(s, 0, Format(arch, vendor, os, environ, processor, features))
    ensures var t := Layout(arch, vendor, os, environ, processor, features);
            && InBounds(s, t.Processor) && AllInBounds(s, t.Features)
            && Text(s, t.Processor) == processor && Texts(s, t.Features) == features
  {
    var t := Layout(arch, vendor, os, environ, processor, features);
    LayoutSlices(arch, vendor, os, environ, processor, features);
    TailPlaced(s, arch, vendor, os, environ, processor + FeatureSuffix(features), t.Processor.Start);
    FifthTexts(s, t.Processor.Start, processor, features, t.Processor, t.Features);
  }

  /** The components of a formatted identifier are read back from the
      slices of `Layout`. */
  lemma FormatTexts(arch: string, vendor: string, os: string, environ: string,
                    processor: string, features: seq<string>)
    ensures var s := Format(arch, vendor, os, environ, processor, features);
            var t := Layout(arch, vendor, os, environ, processor, features);
            && Borrows(s, t)
            && Text(s, t.Arch) == arch && Text(s, t.Vendor) == vendor
            && Text(s, t.OS) == os && Text(s, t.Environ) == environ
            && Text(s, t.Processor) == processor && Texts(s, t.Features) == features
  {
    var s := Format(arch, vendor, os, environ, processor, features);
    PlacedSelf(s);
    TextsOfLayout(s, arch, vendor, os, environ, processor, features);
  }

  lemma SuffixOfTwo(a: string, b: string)
    ensures FeatureSuffix([a, b]) == [':'] + a + ([':'] + b)
  {
    assert [a, b][1..] == [b];
    assert [b][1..] == [];
    assert FeatureSuffix([b]) == [':'] + b + FeatureSuffix([]);
    assert FeatureSuffix([a, b]) == [':'] + a + FeatureSuffix([b]);
  }

  lemma FormatWithFeatures()
    ensures Format("amdgcn", "amd", "amdhsa", "", "gfx908", ["sramecc+", "xnack-"])
         == "amdgcn-amd-amdhsa--gfx908:sramecc+:xnack-"
  {
    SuffixOfTwo("sramecc+", "xnack-");
  }

  /** The example identifier of the AMDGPU user guide with a processor and
      two features, and an empty environment component. */
  lemma ExampleWithFeatures(s: string)
    requires s == "amdgcn-amd-amdhsa--gfx908:sramecc+:xnack-"
    ensures ParseTargetIdentifier(s)
         == Ok(TargetIdentifier(Slice(0, 6), Slice(7, 10), Slice(11, 17), Slice(18, 18),
                                Slice(19, 25), [Slice(26, 34), Slice(35, 41)]))
  {
    FormatWithFeatures();
    FormatParse("amdgcn", "amd", "amdhsa", "", "gfx908", ["sramecc+", "xnack-"]);
    assert Layout("amdgcn", "amd", "amdhsa", "", "gfx908", ["sramecc+", "xnack-"])
        == TargetIdentifier(Slice(0, 6), Slice(7, 10), Slice(11, 17), Slice(18, 18),
                            Slice(19, 25), [Slice(26, 34), Slice(35, 41)]);
  }

  lemma FormatWithoutFeatures()
    ensures Format("x86_64", "pc", "linux", "gnu", "generic", []) == "x86_64-pc-linux-gnu-generic"
  {
  }

  /** Without a `:` the whole fifth component is the processor and there are
      no features. */
  lemma ExampleWithoutFeatures(s: string)
    requires s == "x86_64-pc-linux-gnu-generic"
    ensures ParseTargetIdentifier(s)
         == Ok(TargetIdentifier(Slice(0, 6), Slice(7, 9), Slice(10, 15), Slice(16, 19),
                                Slice(20, 27), []))
  {
    FormatWithoutFeatures();
    FormatParse("x86_64", "pc", "linux", "gnu", "generic", []);
  }

  /** Three `-`-separated components are too few. */
  lemma ExampleTooFewComponents()
    ensures ParseTargetIdentifier("a-b-c") == Err(InvalidInput)
  {
    var s := "a-b-c";
    assert s == "a" + "-b-c" && "-b-c" == "-" + "b-c" && "b-c" == "b" + "-c" && "-c" == "-" + "c";
    CountAppend("a", "-b-c", '-');
    CountAppend("-", "b-c", '-');
    CountAppend("b", "-c", '-');
    CountAppend("-", "c", '-');
    ParseFailsIff(s);
  }
}
