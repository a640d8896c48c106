// src/head_archetypes.rs: filling a Head archetype's prompt template in for one epic.
module Template {
  const PLACEHOLDER: string := "{{epic_id}}"

  // `render` is Rust's `str::replace` for the placeholder: leftmost, non-overlapping.
  function Replace(t: string, id: string): (r: string) {
    if |t| < |PLACEHOLDER| then t
    else if t[..|PLACEHOLDER|] == PLACEHOLDER then id + Replace(t[|PLACEHOLDER|..], id)
    else [t[0]] + Replace(t[1..], id)
  }

  predicate OccursAt(p: string, s: string, i: int) {
    0 <= i <= |s| - |p| && s[i..i + |p|] == p
  }

  ghost predicate Contains(s: string, p: string) {
    exists i :: OccursAt(p, s, i)
  }

  // ---- The output as pieces joined by the id ------------------------------------------------

  // The stretches of a template between its placeholders.
  function Pieces(t: string): (r: seq<string>)
    ensures |r| > 0
  {
    if |t| < |PLACEHOLDER| then [t]
    else if t[..|PLACEHOLDER|] == PLACEHOLDER then [""] + Pieces(t[|PLACEHOLDER|..])
    else var rest := Pieces(t[1..]); [[t[0]] + rest[0]] + rest[1..]
  }

  function Join(pieces: seq<string>, sep: string): (r: string)
    requires |pieces| > 0
  {
    if |pieces| == 1 then pieces[0] else pieces[0] + sep + Join(pieces[1..], sep)
  }

  function Placeholders(t: string): nat {
    |Pieces(t)| - 1
  }

  lemma {:induction false} JoinPrefix(c: char, pieces: seq<string>, sep: string)
    requires |pieces| > 0
    ensures Join([[c] + pieces[0]] + pieces[1..], sep) == [c] + Join(pieces, sep)
  {
    if |pieces| > 1 {
      assert ([[c] + pieces[0]] + pieces[1..])[1..] == pieces[1..];
      assert [c] + pieces[0] + sep + Join(pieces[1..], sep) == [c] + (pieces[0] + sep + Join(pieces[1..], sep));
    }
  }

  // Splitting at the placeholder and joining with `sep` is replacing it by `sep`.
  lemma {:induction false} RenderJoinsPieces(t: string, id: string)
    ensures Join(Pieces(t), id) == Replace(t, id)
  {
    if |t| < |PLACEHOLDER| {
    } else if t[..|PLACEHOLDER|] == PLACEHOLDER {
      RenderJoinsPieces(t[|PLACEHOLDER|..], id);
      var rest := Pieces(t[|PLACEHOLDER|..]);
      assert ([""] + rest)[1..] == rest;
      assert "" + id + Join(rest, id) == id + Join(rest, id);
    } else {
      RenderJoinsPieces(t[1..], id);
      JoinPrefix(t[0], Pieces(t[1..]), id);
    }
  }

  // Replacing the placeholder by itself changes nothing, so the pieces lose nothing.
  lemma {:induction false} PiecesRebuildTemplate(t: string)
    ensures Join(Pieces(t), PLACEHOLDER) == t
  {
    RenderJoinsPieces(t, PLACEHOLDER);
    ReplaceByItself(t);
  }

  lemma {:induction false} ReplaceByItself(t: string)
    ensures Replace(t, PLACEHOLDER) == t
  {
    if |t| < |PLACEHOLDER| {
    } else if t[..|PLACEHOLDER|] == PLACEHOLDER {
      ReplaceByItself(t[|PLACEHOLDER|..]);
      assert t == PLACEHOLDER + t[|PLACEHOLDER|..];
    } else {
      ReplaceByItself(t[1..]);
      assert t == [t[0]] + t[1..];
    }
  }

  lemma OccursInPrefix(a: string, t: string, i: nat)
    requires a <= t && OccursAt(PLACEHOLDER, a, i)
    ensures OccursAt(PLACEHOLDER, t, i)
  {
    assert t[i..i + |PLACEHOLDER|] == a[i..i + |PLACEHOLDER|];
  }

  lemma OccursInTail(c: char, a: string, i: nat)
    requires OccursAt(PLACEHOLDER, [c] + a, i)
    ensures i == 0 || Contains(a, PLACEHOLDER)
  {
    if i > 0 {
      assert a[i - 1..i - 1 + |PLACEHOLDER|] == ([c] + a)[i..i + |PLACEHOLDER|];
      assert OccursAt(PLACEHOLDER, a, i - 1);
    }
  }

  // No piece holds a placeholder, and the first one cannot start one with the text after it.
  lemma {:induction false} PiecesArePlaceholderFree(t: string, k: nat)
    requires k < |Pieces(t)|
    ensures !Contains(Pieces(t)[k], PLACEHOLDER)
    ensures Pieces(t)[0] <= t
  {
    if |t| < |PLACEHOLDER| {
    } else if t[..|PLACEHOLDER|] == PLACEHOLDER {
      if k > 0 { PiecesArePlaceholderFree(t[|PLACEHOLDER|..], k - 1); }
    } else {
      PiecesArePlaceholderFree(t[1..], if k == 0 then 0 else k);
      if k == 0 {
        var rest := Pieces(t[1..])[0];
        if i :| OccursAt(PLACEHOLDER, [t[0]] + rest, i) {
          OccursInPrefix([t[0]] + rest, t, i);
          OccursInTail(t[0], rest, i);
        }
      }
    }
  }

  lemma OneMore(k: int, d: int)
    ensures (k + 1) * d == k * d + d
  {
  }

  lemma {:induction false} RenderedLength(t: string, id: string)
    ensures |Replace(t, id)| == |t| + Placeholders(t) * (|id| - |PLACEHOLDER|)
  {
    if |t| < |PLACEHOLDER| {
    } else if t[..|PLACEHOLDER|] == PLACEHOLDER {
      RenderedLength(t[|PLACEHOLDER|..], id);
      OneMore(Placeholders(t[|PLACEHOLDER|..]), |id| - |PLACEHOLDER|);
    } else {
      RenderedLength(t[1..], id);
    }
  }

  // ---- When nothing is left over ------------------------------------------------------------

  // An id that can take part in a placeholder formed across the seams of the output.
  ghost predicate Clashes(id: string) {
    || Contains(id, PLACEHOLDER)
    || Contains(PLACEHOLDER, id)
    || exists k :: 1 <= k < |PLACEHOLDER| && (EndsWith(id, PLACEHOLDER[..k]) || PLACEHOLDER[k..] <= id)
  }

  predicate EndsWith(s: string, suffix: string) {
    |suffix| <= |s| && s[|s| - |suffix|..] == suffix
  }

  // The test suite's "no leftover placeholder" claim holds for every template exactly when the
  // id cannot clash.
  lemma NothingLeftOver(id: string)
    ensures (forall t :: !Contains(Replace(t, id), PLACEHOLDER)) <==> !Clashes(id)
  {
    if Clashes(id) {
      LeftoverTemplate(id);
    } else {
      forall t ensures !Contains(Replace(t, id), PLACEHOLDER) {
        NoLeftover(t, id);
      }
    }
  }

  // A clashing id has a brace in it or is written in the placeholder's own letters.
  lemma ClashShape(id: string)
    requires Clashes(id)
    ensures '{' in id || '}' in id || forall i :: 0 <= i < |id| ==> id[i] in PLACEHOLDER
  {
    if Contains(id, PLACEHOLDER) {
      var j :| OccursAt(PLACEHOLDER, id, j);
      assert id[j] == id[j..j + |PLACEHOLDER|][0] == '{';
    } else if Contains(PLACEHOLDER, id) {
      var j :| OccursAt(id, PLACEHOLDER, j);
      forall i | 0 <= i < |id| ensures id[i] in PLACEHOLDER {
        assert PLACEHOLDER[j + i] == PLACEHOLDER[j..j + |id|][i];
      }
    } else {
      var k :| 1 <= k < |PLACEHOLDER| && (EndsWith(id, PLACEHOLDER[..k]) || PLACEHOLDER[k..] <= id);
      if EndsWith(id, PLACEHOLDER[..k]) {
        assert id[|id| - k] == id[|id| - k..][0] == '{';
      } else {
        var m := |PLACEHOLDER| - k;
        assert id[m - 1] == PLACEHOLDER[k..][m - 1] == '}';
      }
    }
  }

  // Every id with a character outside the placeholder and without braces is safe: `ep-...`, `ryve-...`.
  lemma OrdinaryIdsAreSafe(id: string, i: nat)
    requires '{' !in id && '}' !in id
    requires i < |id| && id[i] !in PLACEHOLDER
    ensures !Clashes(id)
    ensures forall t :: !Contains(Replace(t, id), PLACEHOLDER)
  {
    if Clashes(id) {
      ClashShape(id);
    }
    NothingLeftOver(id);
  }

  lemma SliceOfSlice<T>(s: seq<T>, i: nat, j: nat, k: nat, l: nat)
    requires i <= j <= |s| && k <= l <= j - i
    ensures s[i..j][k..l] == s[i + k..i + l]
  {
    var left, right := s[i..j][k..l], s[i + k..i + l];
    assert forall m :: 0 <= m < l - k ==> left[m] == right[m];
  }

  lemma CutInThree<T>(s: seq<T>, i: nat, j: nat)
    requires i <= j <= |s|
    ensures s[..i] + s[i..j] + s[j..] == s
  {
  }

  // A placeholder in `a + id + rest` lies in `a`, lies in `rest`, or makes the id clash.
  lemma SeamWitness(a: string, id: string, rest: string, p: nat)
    requires OccursAt(PLACEHOLDER, a + id + rest, p)
    ensures Contains(a, PLACEHOLDER) || Contains(rest, PLACEHOLDER) || Clashes(id)
  {
    var s := a + id + rest;
    var n, lo, hi := |PLACEHOLDER|, |a|, |a| + |id|;
    assert s[lo..hi] == id;
    if p + n <= lo {
      assert a[p..p + n] == s[p..p + n];
      assert OccursAt(PLACEHOLDER, a, p);
    } else if p >= hi {
      assert rest[p - hi..p - hi + n] == s[p..p + n];
      assert OccursAt(PLACEHOLDER, rest, p - hi);
    } else if lo <= p && p + n <= hi {
      SliceOfSlice(s, lo, hi, p - lo, p - lo + n);
      assert OccursAt(PLACEHOLDER, id, p - lo);
    } else if p <= lo && hi <= p + n {
      SliceOfSlice(s, p, p + n, lo - p, hi - p);
      assert OccursAt(id, PLACEHOLDER, lo - p);
    } else if p < lo {
      SliceOfSlice(s, p, p + n, lo - p, n);
      SliceOfSlice(s, lo, hi, 0, p + n - lo);
      assert PLACEHOLDER[lo - p..] <= id;
    } else {
      SliceOfSlice(s, p, p + n, 0, hi - p);
      SliceOfSlice(s, lo, hi, p - lo, |id|);
      assert EndsWith(id, PLACEHOLDER[..hi - p]);
    }
  }

  lemma {:induction false} NoLeftover(t: string, id: string)
    requires !Clashes(id)
    ensures !Contains(Replace(t, id), PLACEHOLDER)
  {
    RenderJoinsPieces(t, id);
    forall k | 0 <= k < |Pieces(t)| ensures !Contains(Pieces(t)[k], PLACEHOLDER) {
      PiecesArePlaceholderFree(t, k);
    }
    JoinIsClean(Pieces(t), id);
  }

  lemma {:induction false} JoinIsClean(pieces: seq<string>, id: string)
    requires |pieces| > 0 && !Clashes(id)
    requires forall k :: 0 <= k < |pieces| ==> !Contains(pieces[k], PLACEHOLDER)
    ensures !Contains(Join(pieces, id), PLACEHOLDER)
  {
    if |pieces| > 1 {
      JoinIsClean(pieces[1..], id);
      var rest := Join(pieces[1..], id);
      if p :| OccursAt(PLACEHOLDER, pieces[0] + id + rest, p) {
        SeamWitness(pieces[0], id, rest, p);
      }
    }
  }

  // ---- A template that a clashing id leaves unrendered ---------------------------------------

  // The placeholder has no border, so a part of it in front does not disturb the match.
  lemma LeadIn(i: nat, id: string, b: string)
    requires i < |PLACEHOLDER| && |b| < |PLACEHOLDER|
    ensures Replace(PLACEHOLDER[..i] + PLACEHOLDER + b, id) == PLACEHOLDER[..i] + id + b
  {
    LeadInFrom(0, i, id, b);
  }

  lemma NoMatchBefore(j: nat, i: nat, b: string)
    requires j < i < |PLACEHOLDER|
    ensures (PLACEHOLDER[j..i] + PLACEHOLDER + b)[..|PLACEHOLDER|] != PLACEHOLDER
  {
    var t := PLACEHOLDER[j..i] + PLACEHOLDER + b;
    // Position i - j of t holds the real placeholder's first brace.
    assert t[i - j] == '{' && t[i - j + 1] == '{';
    if i - j == 1 {
      assert t[..|PLACEHOLDER|][2] == '{';
    } else {
      assert t[..|PLACEHOLDER|][i - j] == '{';
    }
  }

  lemma HeadOfSlice(s: string, j: nat, i: nat, middle: string, b: string)
    requires j < i <= |s|
    ensures s[j..i] + middle + b == [s[j]] + (s[j + 1..i] + middle + b)
    ensures (s[j..i] + middle + b)[1..] == s[j + 1..i] + middle + b
  {
    assert s[j..i] == [s[j]] + s[j + 1..i];
  }

  lemma {:induction false} LeadInFrom(j: nat, i: nat, id: string, b: string)
    requires j <= i < |PLACEHOLDER| && |b| < |PLACEHOLDER|
    ensures Replace(PLACEHOLDER[j..i] + PLACEHOLDER + b, id) == PLACEHOLDER[j..i] + id + b
    decreases i - j
  {
    var t := PLACEHOLDER[j..i] + PLACEHOLDER + b;
    var n := |PLACEHOLDER|;
    if j == i {
      assert t == PLACEHOLDER + b;
      assert t[..n] == PLACEHOLDER && t[n..] == b;
      assert PLACEHOLDER[j..i] + id + b == id + b;
    } else {
      NoMatchBefore(j, i, b);
      HeadOfSlice(PLACEHOLDER, j, i, PLACEHOLDER, b);
      HeadOfSlice(PLACEHOLDER, j, i, id, b);
      LeadInFrom(j + 1, i, id, b);
    }
  }

  lemma WholeOccurs(s: string)
    ensures OccursAt(s, s, 0)
  {
    assert s[0..0 + |s|] == s;
  }

  lemma Leftover(t: string, id: string)
    requires Replace(t, id) == PLACEHOLDER
    ensures Contains(Replace(t, id), PLACEHOLDER)
  {
    WholeOccurs(PLACEHOLDER);
  }

  lemma LeftoverInside(id: string, i: nat)
    requires OccursAt(id, PLACEHOLDER, i) && 0 < i + |id| && i < |PLACEHOLDER|
    ensures exists t :: Contains(Replace(t, id), PLACEHOLDER)
  {
    var p := PLACEHOLDER;
    CutInThree(p, i, i + |id|);
    LeadIn(i, id, p[i + |id|..]);
    Leftover(p[..i] + p + p[i + |id|..], id);
  }

  lemma LeftoverAfter(id: string, k: nat)
    requires 1 <= k < |PLACEHOLDER| && EndsWith(id, PLACEHOLDER[..k])
    ensures exists t :: Contains(Replace(t, id), PLACEHOLDER)
  {
    var b := PLACEHOLDER[k..];
    LeadIn(0, id, b);
    var out := Replace(PLACEHOLDER[..0] + PLACEHOLDER + b, id);
    assert out == id + b;
    assert out[|id| - k..|id| - k + |PLACEHOLDER|] == id[|id| - k..] + b;
    assert PLACEHOLDER[..k] + b == PLACEHOLDER;
    assert OccursAt(PLACEHOLDER, out, |id| - k);
    assert Contains(Replace(PLACEHOLDER[..0] + PLACEHOLDER + b, id), PLACEHOLDER);
  }

  lemma LeftoverBefore(id: string, k: nat)
    requires 1 <= k < |PLACEHOLDER| && PLACEHOLDER[k..] <= id
    ensures exists t :: Contains(Replace(t, id), PLACEHOLDER)
  {
    LeadIn(k, id, "");
    var out := Replace(PLACEHOLDER[..k] + PLACEHOLDER + "", id);
    assert out == PLACEHOLDER[..k] + id;
    assert out[..|PLACEHOLDER|] == PLACEHOLDER[..k] + PLACEHOLDER[k..];
    assert PLACEHOLDER[..k] + PLACEHOLDER[k..] == PLACEHOLDER;
    assert OccursAt(PLACEHOLDER, out, 0);
    assert Contains(Replace(PLACEHOLDER[..k] + PLACEHOLDER + "", id), PLACEHOLDER);
  }

  lemma LeftoverTemplate(id: string)
    requires Clashes(id)
    ensures exists t :: Contains(Replace(t, id), PLACEHOLDER)
  {
    if Contains(id, PLACEHOLDER) {
      LeadIn(0, id, "");
      assert Replace(PLACEHOLDER[..0] + PLACEHOLDER + "", id) == id;
    } else if Contains(PLACEHOLDER, id) {
      var i :| OccursAt(id, PLACEHOLDER, i);
      if id == "" {
        assert PLACEHOLDER[1..1] == id;
        LeftoverInside(id, 1);
      } else {
        LeftoverInside(id, i);
      }
    } else {
      var k :| 1 <= k < |PLACEHOLDER| && (EndsWith(id, PLACEHOLDER[..k]) || PLACEHOLDER[k..] <= id);
      if EndsWith(id, PLACEHOLDER[..k]) {
        LeftoverAfter(id, k);
      } else {
        LeftoverBefore(id, k);
      }
    }
  }
}
