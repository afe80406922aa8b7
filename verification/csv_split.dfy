/** `String_Split` of `src/csv.c`: the text is cut at every delimiter, but
    a new piece is only started once the current one holds a character, so
    leading and repeated delimiters yield nothing and a trailing delimiter
    after text yields one empty last piece. */
module CsvSplit {
  import opened Wrappers
  import opened CsvString
  import opened CsvVec

  /** The texts of the pieces the loop appends for `t`, one character at a
      time; there is an open piece exactly when some piece exists. */
  function Pieces(t: seq<char>, d: char): (ps: seq<seq<char>>)
    decreases |t|
  {
    if t == [] then [] else Step(Pieces(t[..|t| - 1], d), t[|t| - 1], d)
  }

  /** The loop body on piece texts: a delimiter opens a new piece only when
      the current one is non-empty; another character goes to the current
      piece, opening the first one if there is none. */
  function Step(ps: seq<seq<char>>, c: char, d: char): seq<seq<char>>
  {
    if c == d then
      if ps != [] && ps[|ps| - 1] != [] then ps + [[]] else ps
    else if ps == [] then [[c]]
    else ps[..|ps| - 1] + [ps[|ps| - 1] + [c]]
  }

  /** `t` with every delimiter removed. */
  function Filter(t: seq<char>, d: char): (f: seq<char>)
    ensures |f| <= |t|
    decreases |t|
  {
    if t == [] then [] else Filter(t[..|t| - 1], d) + (if t[|t| - 1] == d then [] else [t[|t| - 1]])
  }

  /** A delimiter survives squeezing when it directly follows a non-delimiter. */
  predicate Kept(t: seq<char>, i: nat, d: char)
    requires i < |t|
  {
    t[i] != d || (i > 0 && t[i - 1] != d)
  }

  /** `t` with leading delimiters dropped and each run of delimiters cut to one. */
  function Squeeze(t: seq<char>, d: char): seq<char>
    decreases |t|
  {
    if t == [] then [] else Squeeze(t[..|t| - 1], d) + (if Kept(t, |t| - 1, d) then [t[|t| - 1]] else [])
  }

  function Concat(ps: seq<seq<char>>): seq<char>
    decreases |ps|
  {
    if ps == [] then [] else Concat(ps[..|ps| - 1]) + ps[|ps| - 1]
  }

  /** The pieces with one delimiter between neighbours. */
  function Join(ps: seq<seq<char>>, d: char): seq<char>
    decreases |ps|
  {
    if |ps| <= 1 then (if ps == [] then [] else ps[0])
    else Join(ps[..|ps| - 1], d) + [d] + ps[|ps| - 1]
  }

  predicate NoDelimiter(ps: seq<seq<char>>, d: char)
  {
    forall k :: 0 <= k < |ps| ==> d !in ps[k]
  }

  /** Every piece but the last holds at least one character. */
  predicate InnerNonEmpty(ps: seq<seq<char>>)
  {
    forall k :: 0 <= k < |ps| - 1 ==> ps[k] != []
  }

  lemma ConcatSnoc(ps: seq<seq<char>>, p: seq<char>)
    ensures Concat(ps + [p]) == Concat(ps) + p
  {
    assert (ps + [p])[..|ps|] == ps;
  }

  lemma JoinSnoc(ps: seq<seq<char>>, p: seq<char>, d: char)
    requires ps != []
    ensures Join(ps + [p], d) == Join(ps, d) + [d] + p
  {
    assert (ps + [p])[..|ps|] == ps;
  }

  /** Pieces exist exactly when the text has a non-delimiter; none holds a
      delimiter; all but the last are non-empty; and the last is empty
      exactly when the text ends with a delimiter. */
  predicate Shaped(ps: seq<seq<char>>, t: seq<char>, d: char)
  {
    && (ps == [] <==> Filter(t, d) == [])
    && NoDelimiter(ps, d)
    && InnerNonEmpty(ps)
    && (ps != [] ==> t != [] && (ps[|ps| - 1] == [] <==> t[|t| - 1] == d))
  }

  lemma {:induction false} PiecesShape(t: seq<char>, d: char)
    ensures Shaped(Pieces(t, d), t, d)
    decreases |t|
  {
    if t != [] {
      PiecesShape(t[..|t| - 1], d);
      StepShape(t, d);
    }
  }

  /** One step of the loop keeps the pieces shaped. */
  lemma StepShape(t: seq<char>, d: char)
    requires t != [] && Shaped(Pieces(t[..|t| - 1], d), t[..|t| - 1], d)
    ensures Shaped(Pieces(t, d), t, d)
  {
    var init := t[..|t| - 1];
    var c := t[|t| - 1];
    var ps := Pieces(init, d);
    assert Pieces(t, d) == Step(ps, c, d);
    if c == d {
      assert Filter(t, d) == Filter(init, d);
      if ps != [] && ps[|ps| - 1] != [] {
        assert Pieces(t, d) == ps + [[]];
      } else {
        assert Pieces(t, d) == ps;
      }
    } else {
      assert Filter(t, d) == Filter(init, d) + [c];
      if ps == [] {
        assert Pieces(t, d) == [[c]];
      } else {
        var last := ps[|ps| - 1] + [c];
        assert d !in last;
        assert Pieces(t, d) == ps[..|ps| - 1] + [last];
      }
    }
  }

  /** The pieces hold every non-delimiter of the text, in order. */
  lemma {:induction false} PiecesConcat(t: seq<char>, d: char)
    ensures Concat(Pieces(t, d)) == Filter(t, d)
    decreases |t|
  {
    if t != [] {
      var init := t[..|t| - 1];
      var c := t[|t| - 1];
      PiecesConcat(init, d);
      var ps := Pieces(init, d);
      assert Pieces(t, d) == Step(ps, c, d);
      if c == d {
        if ps != [] && ps[|ps| - 1] != [] {
          ConcatSnoc(ps, []);
        }
      } else if ps == [] {
        ConcatSnoc([], [c]);
      } else {
        var front := ps[..|ps| - 1];
        assert ps == front + [ps[|ps| - 1]];
        ConcatSnoc(front, ps[|ps| - 1]);
        ConcatSnoc(front, ps[|ps| - 1] + [c]);
      }
    }
  }

  /** Joining the pieces with the delimiter gives back the squeezed text. */
  lemma {:induction false} PiecesJoin(t: seq<char>, d: char)
    ensures Join(Pieces(t, d), d) == Squeeze(t, d)
    decreases |t|
  {
    if t != [] {
      var init := t[..|t| - 1];
      PiecesJoin(init, d);
      PiecesShape(init, d);
      if t[|t| - 1] == d {
        JoinDelimiter(t, d);
      } else {
        JoinCharacter(t, d);
      }
    }
  }

  /** The step of `PiecesJoin` for a text ending with a delimiter. */
  lemma JoinDelimiter(t: seq<char>, d: char)
    requires t != [] && t[|t| - 1] == d
    requires var init := t[..|t| - 1];
      var ps := Pieces(init, d);
      && Join(ps, d) == Squeeze(init, d)
      && (ps == [] <==> Filter(init, d) == [])
      && (ps != [] ==> (ps[|ps| - 1] == [] <==> init[|init| - 1] == d))
    ensures Join(Pieces(t, d), d) == Squeeze(t, d)
  {
    var init := t[..|t| - 1];
    var ps := Pieces(init, d);
    assert Pieces(t, d) == Step(ps, d, d);
    assert Squeeze(t, d) == Squeeze(init, d) + (if Kept(t, |t| - 1, d) then [d] else []);
    if ps != [] && ps[|ps| - 1] != [] {
      assert Pieces(t, d) == ps + [[]];
      assert Kept(t, |t| - 1, d);
      JoinSnoc(ps, [], d);
    } else {
      assert Pieces(t, d) == ps;
      if init != [] {
        assert init[|init| - 1] == d;
      }
      assert !Kept(t, |t| - 1, d);
    }
  }

  /** The step of `PiecesJoin` for a text ending with a non-delimiter. */
  lemma JoinCharacter(t: seq<char>, d: char)
    requires t != [] && t[|t| - 1] != d
    requires Join(Pieces(t[..|t| - 1], d), d) == Squeeze(t[..|t| - 1], d)
    ensures Join(Pieces(t, d), d) == Squeeze(t, d)
  {
    var init := t[..|t| - 1];
    var c := t[|t| - 1];
    var ps := Pieces(init, d);
    assert Pieces(t, d) == Step(ps, c, d);
    assert Squeeze(t, d) == Squeeze(init, d) + [c];
    if ps == [] {
      assert Pieces(t, d) == [[c]];
    } else {
      var front := ps[..|ps| - 1];
      var last := ps[|ps| - 1];
      assert ps == front + [last];
      assert Pieces(t, d) == front + [last + [c]];
      if front != [] {
        JoinSnoc(front, last, d);
        JoinSnoc(front, last + [c], d);
      } else {
        assert Join(Pieces(t, d), d) == last + [c];
      }
    }
  }

  /** Joining pieces that hold no delimiter can be undone: the last piece
      is what follows the last delimiter. */
  lemma {:induction false} JoinInjective(ps: seq<seq<char>>, qs: seq<seq<char>>, d: char)
    requires ps != [] && qs != [] && NoDelimiter(ps, d) && NoDelimiter(qs, d)
    requires Join(ps, d) == Join(qs, d)
    ensures ps == qs
    decreases |ps|
  {
    if |ps| == 1 && |qs| == 1 {
    } else if |ps| == 1 {
      JoinHasDelimiter(qs, d);
    } else if |qs| == 1 {
      JoinHasDelimiter(ps, d);
    } else {
      var p, q := ps[|ps| - 1], qs[|qs| - 1];
      SplitAtLastDelimiter(Join(ps[..|ps| - 1], d), p, Join(qs[..|qs| - 1], d), q, d);
      JoinInjective(ps[..|ps| - 1], qs[..|qs| - 1], d);
      assert ps == ps[..|ps| - 1] + [p] && qs == qs[..|qs| - 1] + [q];
    }
  }

  lemma JoinHasDelimiter(ps: seq<seq<char>>, d: char)
    requires |ps| > 1
    ensures d in Join(ps, d)
  {
    var a := Join(ps[..|ps| - 1], d);
    assert (a + [d] + ps[|ps| - 1])[|a|] == d;
  }

  /** The text after the last delimiter is determined by the whole. */
  lemma SplitAtLastDelimiter(a: seq<char>, p: seq<char>, b: seq<char>, q: seq<char>, d: char)
    requires d !in p && d !in q && a + [d] + p == b + [d] + q
    ensures a == b && p == q
  {
    var j := a + [d] + p;
    LastDelimiterAt(a, p, d);
    LastDelimiterAt(b, q, d);
    assert |a| == |b|;
    assert a == j[..|a|] == b;
    assert p == j[|a| + 1..] == q;
  }

  lemma LastDelimiterAt(a: seq<char>, p: seq<char>, d: char)
    requires d !in p
    ensures (a + [d] + p)[|a|] == d
    ensures forall i :: |a| < i < |a| + 1 + |p| ==> (a + [d] + p)[i] != d
  {
    forall i | |a| < i < |a| + 1 + |p|
      ensures (a + [d] + p)[i] != d
    {
      assert (a + [d] + p)[i] == p[i - |a| - 1];
    }
  }

  /** The pieces are the only delimiter-free list that joins to the squeezed
      text and is empty exactly when the text holds no non-delimiter. */
  lemma PiecesUnique(t: seq<char>, d: char, qs: seq<seq<char>>)
    requires NoDelimiter(qs, d) && Join(qs, d) == Squeeze(t, d)
    requires qs == [] <==> Filter(t, d) == []
    ensures qs == Pieces(t, d)
  {
    PiecesShape(t, d);
    PiecesJoin(t, d);
    if qs != [] {
      JoinInjective(qs, Pieces(t, d), d);
    }
  }

  /** Leading, repeated and trailing delimiters: splitting `,a,,b,` at `,`
      gives `a`, `b` and one empty piece. */
  lemma SplitExample(a: char, b: char, d: char)
    requires a != d && b != d
    ensures Pieces([d, a, d, d, b, d], d) == [[a], [b], []]
  {
    var t := [d, a, d, d, b, d];
    assert t[..4] == [d, a, d, d];
    ExampleHead(a, d);
    PiecesPrefix(t, 4, d);
    var empty: seq<char> := [];
    assert empty + [b] == [b];
    assert [[a], empty][..1] == [[a]];
    assert Pieces(t[..5], d) == [[a], [b]];
    PiecesPrefix(t, 5, d);
    assert t[..6] == t;
  }

  /** `,a,,` gives `a` and an open empty piece. */
  lemma ExampleHead(a: char, d: char)
    requires a != d
    ensures Pieces([d, a, d, d], d) == [[a], []]
  {
    var t := [d, a, d, d];
    PiecesPrefix(t, 0, d);
    assert Pieces(t[..1], d) == [];
    PiecesPrefix(t, 1, d);
    assert Pieces(t[..2], d) == [[a]];
    PiecesPrefix(t, 2, d);
    PiecesPrefix(t, 3, d);
    assert t[..4] == t;
  }

  lemma PiecesPrefix(t: seq<char>, i: nat, d: char)
    requires i < |t|
    ensures Pieces(t[..i + 1], d) == Step(Pieces(t[..i], d), t[i], d)
  {
    assert t[..i + 1][..i] == t[..i];
  }

  lemma UpdateLast(o: seq<seq<char>>, ps: seq<seq<char>>, x: seq<char>)
    requires ps != []
    ensures (o + ps)[|o| + |ps| - 1 := x] == o + (ps[..|ps| - 1] + [x])
  {
  }

  lemma AppendOne(o: seq<seq<char>>, ps: seq<seq<char>>, x: seq<char>)
    ensures o + ps + [x] == o + (ps + [x])
  {
  }

  /** The loop state `r`, `piece` holds the strings of `pieces` followed by
      strings with texts `ps`, and `piece` points at the last of those. */
  predicate Tracks(r: VecString, piece: Option<nat>, pieces: VecString, ps: seq<seq<char>>)
    requires CsvVec.Valid(pieces)
  {
    && CsvVec.Valid(r) && r.size >= pieces.size
    && Live(r)[..pieces.size] == Live(pieces)
    && Texts(r) == Texts(pieces) + ps
    && (piece.Some? <==> r.size > pieces.size)
    && (piece.Some? ==> piece.value == r.size - 1)
  }

  /** The body of the loop of `String_Split` for one character `c`. */
  method SplitStep(r: VecString, piece: Option<nat>, c: char, delim: char,
                   ghost pieces: VecString, ghost ps: seq<seq<char>>)
    returns (r': VecString, piece': Option<nat>)
    requires CsvVec.Valid(pieces) && Tracks(r, piece, pieces, ps)
    ensures Tracks(r', piece', pieces, Step(ps, c, delim))
  {
    if c == delim {
      r', piece' := r, piece;
      if piece.Some? {
        assert Texts(r)[piece.value] == ps[|ps| - 1];
      }
      if piece.Some? && !CsvString.IsEmpty(Live(r)[piece.value]) {
        r' := Alloc(r);
        piece' := Some(r'.size - 1);
        AppendOne(Texts(pieces), ps, []);
      }
    } else {
      var r0, k := r, 0;
      if piece.None? {
        r0 := Alloc(r);
        k := r0.size - 1;
        assert Tracks(r0, Some(k), pieces, [[]]);
      } else {
        k := piece.value;
      }
      var qs := if ps == [] then [[]] else ps;
      r' := AppendToPiece(r0, k, c, pieces, qs);
      piece' := Some(k);
      if ps == [] {
        assert qs == [[]];
        assert qs[..|qs| - 1] == [];
        assert qs[|qs| - 1] + [c] == [c];
      }
    }
  }

  /** `String_Append(piece, &c, 1)` on the last piece. */
  method AppendToPiece(r: VecString, k: nat, c: char, ghost pieces: VecString, ghost ps: seq<seq<char>>)
    returns (r': VecString)
    requires CsvVec.Valid(pieces) && Tracks(r, Some(k), pieces, ps)
    ensures Tracks(r', Some(k), pieces, ps[..|ps| - 1] + [ps[|ps| - 1] + [c]])
  {
    ghost var before := Texts(r);
    var s := CsvString.Append(Live(r)[k], [c]);
    assert Text(s) == before[k] + [c];
    r' := Update(r, k, s);
    UpdateLast(Texts(pieces), ps, ps[|ps| - 1] + [c]);
  }

  /** Models `String_Split` (allocation assumed to succeed): the pieces of
      the text are appended to `pieces`, whose live strings stay as they were. */
  method Split(str: String, pieces: VecString, delim: char) returns (r: VecString)
    requires CsvString.Valid(str) && CsvVec.Valid(pieces)
    ensures CsvVec.Valid(r) && r.size >= pieces.size
    ensures Live(r)[..pieces.size] == Live(pieces)
    ensures Texts(r) == Texts(pieces) + Pieces(Text(str), delim)
  {
    var t := Text(str);
    r := pieces;
    var piece: Option<nat> := None;
    for i := 0 to str.size
      invariant Tracks(r, piece, pieces, Pieces(t[..i], delim))
    {
      var c := str.items.value[i].c;
      PiecesPrefix(t, i, delim);
      r, piece := SplitStep(r, piece, c, delim, pieces, Pieces(t[..i], delim));
    }
    assert t[..str.size] == t;
  }
}
