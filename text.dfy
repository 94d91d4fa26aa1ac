/** String operations the search handler relies on: JavaScript's
    String.prototype.trim, ASCII case folding, and substring containment
    (the meaning of a case-insensitive `$regex` whose pattern holds no
    metacharacters). */
module Text {

  /** The code points String.prototype.trim removes: ECMAScript WhiteSpace
      (tab, vertical tab, form feed, space, no-break space, the byte order
      mark and the Unicode space separators) and LineTerminator. */
  predicate IsWhitespace(c: char)
    ensures c as int < 0x80 ==> (IsWhitespace(c) <==> c == ' ' || '\t' <= c <= '\r')
  {
    var n := c as int;
    n == 0x09 || n == 0x0A || n == 0x0B || n == 0x0C || n == 0x0D || n == 0x20
    || n == 0xA0 || n == 0x1680 || (0x2000 <= n <= 0x200A) || n == 0x2028
    || n == 0x2029 || n == 0x202F || n == 0x205F || n == 0x3000 || n == 0xFEFF
  }

  predicate AllWhitespace(s: string) {
    forall i :: 0 <= i < |s| ==> IsWhitespace(s[i])
  }

  /** Drops the leading whitespace: the result is a suffix of `s`, what was
      dropped is whitespace, and the result does not start with whitespace. */
  function TrimStart(s: string): (r: string)
    ensures |r| <= |s| && r == s[|s| - |r|..]
    ensures AllWhitespace(s[..|s| - |r|])
    ensures r == [] || !IsWhitespace(r[0])
  {
    if s != [] && IsWhitespace(s[0]) then TrimStart(s[1..]) else s
  }

  /** Drops the trailing whitespace: the result is a prefix of `s`, what was
      dropped is whitespace, and the result does not end with whitespace. */
  function TrimEnd(s: string): (r: string)
    ensures |r| <= |s| && r == s[..|r|]
    ensures AllWhitespace(s[|r|..])
    ensures r == [] || !IsWhitespace(r[|r| - 1])
  {
    if s != [] && IsWhitespace(s[|s| - 1]) then TrimEnd(s[..|s| - 1]) else s
  }

  /** String.prototype.trim: drops the leading and the trailing whitespace.
      The result neither starts nor ends with whitespace. */
  function Trim(s: string): (r: string)
    ensures |r| <= |s|
    ensures r == [] || (!IsWhitespace(r[0]) && !IsWhitespace(r[|r| - 1]))
  {
    TrimEnd(TrimStart(s))
  }

  /** What trim removes is whitespace: `s` is the result framed by a
      whitespace prefix and a whitespace suffix. */
  lemma TrimFrames(s: string)
    ensures exists i :: 0 <= i <= |s| - |Trim(s)| && s[i..i + |Trim(s)|] == Trim(s)
                        && AllWhitespace(s[..i]) && AllWhitespace(s[i + |Trim(s)|..])
  {
    var t := TrimStart(s);
    var r := Trim(s);
    var i := |s| - |t|;
    SliceOfSuffix(s, i, |r|);
    assert AllWhitespace(s[..i]);
    assert AllWhitespace(t[|r|..]);
  }

  /** Slicing a suffix of `s` is slicing `s` itself. */
  lemma SliceOfSuffix(s: string, i: nat, m: nat)
    requires i + m <= |s|
    ensures s[i..][..m] == s[i..i + m] && s[i..][m..] == s[i + m..]
  {
  }

  /** A string is blank (falsy after trim) exactly when every character is
      whitespace. */
  lemma {:induction false} TrimEmptyIff(s: string)
    ensures Trim(s) == [] <==> AllWhitespace(s)
  {
    var t := TrimStart(s);
    if Trim(s) == [] {
      assert t[0..] == t;
      assert t == [];
      assert s[..|s|] == s;
    }
  }

  lemma {:induction false} TrimStartDropsWhitespace(p: string, s: string)
    requires AllWhitespace(p)
    ensures TrimStart(p + s) == TrimStart(s)
  {
    if p != [] {
      assert (p + s)[1..] == p[1..] + s;
      TrimStartDropsWhitespace(p[1..], s);
    } else {
      assert p + s == s;
    }
  }

  lemma {:induction false} TrimStartKeepsTail(s: string, q: string)
    requires !AllWhitespace(s)
    ensures TrimStart(s + q) == TrimStart(s) + q
  {
    assert s != [];
    assert (s + q)[0] == s[0];
    if IsWhitespace(s[0]) {
      assert (s + q)[1..] == s[1..] + q;
      assert !AllWhitespace(s[1..]);
      TrimStartKeepsTail(s[1..], q);
    }
  }

  lemma {:induction false} TrimEndDropsWhitespace(s: string, q: string)
    requires AllWhitespace(q)
    ensures TrimEnd(s + q) == TrimEnd(s)
  {
    if q != [] {
      var q' := q[..|q| - 1];
      assert (s + q)[|s + q| - 1] == q[|q| - 1];
      assert (s + q)[..|s + q| - 1] == s + q';
      TrimEndDropsWhitespace(s, q');
    } else {
      assert s + q == s;
    }
  }

  /** Whitespace around a string never changes what trim returns. */
  lemma {:induction false} TrimIgnoresSurroundingWhitespace(p: string, s: string, q: string)
    requires AllWhitespace(p) && AllWhitespace(q)
    ensures Trim(p + s + q) == Trim(s)
  {
    assert p + s + q == p + (s + q);
    TrimStartDropsWhitespace(p, s + q);
    if AllWhitespace(s) {
      assert AllWhitespace(s + q) by {
        forall i | 0 <= i < |s + q| ensures IsWhitespace((s + q)[i]) {
          if i < |s| { assert (s + q)[i] == s[i]; } else { assert (s + q)[i] == q[i - |s|]; }
        }
      }
      TrimEmptyIff(s + q);
      TrimEmptyIff(s);
    } else {
      TrimStartKeepsTail(s, q);
      TrimEndDropsWhitespace(TrimStart(s), q);
    }
  }

  /** Trimming twice is trimming once. */
  lemma TrimIdempotent(s: string)
    ensures Trim(Trim(s)) == Trim(s)
  {
    var r := Trim(s);
    if r != [] {
      assert TrimStart(r) == r;
      assert TrimEnd(r) == r;
    }
  }

  /** Two characters a case-insensitive match treats as equal: the same
      character, or an ASCII capital and its small letter. */
  predicate SameIgnoringCase(a: char, b: char) {
    a == b
    || ('A' <= a <= 'Z' && b as int == a as int + 32)
    || ('A' <= b <= 'Z' && a as int == b as int + 32)
  }

  /** ASCII case folding: the result is the character up to case, and it is
      never a capital letter. */
  function Lower(c: char): (d: char)
    ensures SameIgnoringCase(c, d)
    ensures !('A' <= d <= 'Z')
  {
    if 'A' <= c <= 'Z' then (c as int + 32) as char else c
  }

  /** Folding identifies exactly the characters a case-insensitive match
      treats as equal. */
  lemma LowerEqualIff(a: char, b: char)
    ensures Lower(a) == Lower(b) <==> SameIgnoringCase(a, b)
  {
  }

  function LowerStr(s: string): (r: string)
    ensures |r| == |s|
    ensures forall i :: 0 <= i < |s| ==> r[i] == Lower(s[i])
  {
    seq(|s|, i requires 0 <= i < |s| => Lower(s[i]))
  }

  /** Lower-casing commutes with slicing. */
  lemma LowerStrSlice(s: string, i: int, j: int)
    requires 0 <= i <= j <= |s|
    ensures LowerStr(s)[i..j] == LowerStr(s[i..j])
  {
    var a, b := LowerStr(s)[i..j], LowerStr(s[i..j]);
    assert |a| == |b|;
    forall k | 0 <= k < |a| ensures a[k] == b[k] {
      assert a[k] == LowerStr(s)[i + k] == Lower(s[i + k]);
      assert b[k] == Lower(s[i..j][k]);
    }
  }

  /** Two strings equal up to ASCII case lower-case to the same string. */
  lemma LowerStrEqual(a: string, b: string)
    requires |a| == |b| && forall i :: 0 <= i < |a| ==> Lower(a[i]) == Lower(b[i])
    ensures LowerStr(a) == LowerStr(b)
  {
  }

  predicate StartsWith(s: string, prefix: string) {
    |prefix| <= |s| && s[..|prefix|] == prefix
  }

  /** `needle` occurs in `hay` starting at index `i`. */
  predicate OccursAt(hay: string, needle: string, i: int) {
    0 <= i && i + |needle| <= |hay| && hay[i..i + |needle|] == needle
  }

  /** Substring containment, searched left to right. The empty needle is
      found everywhere; a needle longer than the text is never found. */
  predicate Contains(hay: string, needle: string)
    ensures needle == [] ==> Contains(hay, needle)
    ensures Contains(hay, needle) ==> |needle| <= |hay|
    decreases |hay|
  {
    StartsWith(hay, needle) || (hay != [] && Contains(hay[1..], needle))
  }

  /** The left-to-right search finds `needle` exactly when it occurs at some
      index of `hay`. */
  lemma {:induction false} ContainsIff(hay: string, needle: string)
    ensures Contains(hay, needle) <==> exists i :: OccursAt(hay, needle, i)
    decreases |hay|
  {
    if StartsWith(hay, needle) {
      assert OccursAt(hay, needle, 0);
    } else if hay != [] {
      ContainsIff(hay[1..], needle);
      if Contains(hay[1..], needle) {
        var i :| OccursAt(hay[1..], needle, i);
        assert hay[1..][i..i + |needle|] == hay[i + 1..i + 1 + |needle|];
        assert OccursAt(hay, needle, i + 1);
      }
      if exists i :: OccursAt(hay, needle, i) {
        var i :| OccursAt(hay, needle, i);
        assert hay[1..][i - 1..i - 1 + |needle|] == hay[i..i + |needle|];
        assert OccursAt(hay[1..], needle, i - 1);
      }
    }
  }

  /** Case-insensitive containment: `needle` occurs in `hay` once both are
      ASCII lower-cased. An exact occurrence is also one up to case. */
  predicate ContainsIgnoreCase(hay: string, needle: string)
    ensures ContainsIgnoreCase(hay, needle) ==> |needle| <= |hay|
    ensures Contains(hay, needle) ==> ContainsIgnoreCase(hay, needle)
  {
    ExactImpliesIgnoreCase(hay, needle);
    Contains(LowerStr(hay), LowerStr(needle))
  }

  /** Lower-casing both sides keeps every exact occurrence. */
  lemma ExactImpliesIgnoreCase(hay: string, needle: string)
    ensures Contains(hay, needle) ==> Contains(LowerStr(hay), LowerStr(needle))
  {
    ContainsIff(hay, needle);
    ContainsIff(LowerStr(hay), LowerStr(needle));
    if Contains(hay, needle) {
      var i :| OccursAt(hay, needle, i);
      LowerStrSlice(hay, i, i + |needle|);
      assert OccursAt(LowerStr(hay), LowerStr(needle), i);
    }
  }

  /** The window of `hay` at index `i` equals `needle` up to ASCII case. */
  predicate OccursIgnoreCaseAt(hay: string, needle: string, i: int) {
    0 <= i && i + |needle| <= |hay| && LowerStr(hay[i..i + |needle|]) == LowerStr(needle)
  }

  lemma OccursLowered(hay: string, needle: string, i: int)
    ensures OccursAt(LowerStr(hay), LowerStr(needle), i) <==> OccursIgnoreCaseAt(hay, needle, i)
  {
    if 0 <= i && i + |needle| <= |hay| {
      LowerStrSlice(hay, i, i + |needle|);
    }
  }

  /** Case-insensitive containment holds exactly when some window of `hay`
      equals `needle` up to ASCII case. */
  lemma ContainsIgnoreCaseIff(hay: string, needle: string)
    ensures ContainsIgnoreCase(hay, needle) <==> exists i :: OccursIgnoreCaseAt(hay, needle, i)
  {
    ContainsIff(LowerStr(hay), LowerStr(needle));
    forall i ensures OccursAt(LowerStr(hay), LowerStr(needle), i) <==> OccursIgnoreCaseAt(hay, needle, i) {
      OccursLowered(hay, needle, i);
    }
  }

  /** A window matches up to case exactly when each of its characters
      matches the needle's character at the same position up to case. */
  lemma OccursIgnoreCaseAtIff(hay: string, needle: string, i: int)
    requires 0 <= i && i + |needle| <= |hay|
    ensures OccursIgnoreCaseAt(hay, needle, i)
        <==> forall k :: 0 <= k < |needle| ==> SameIgnoringCase(hay[i + k], needle[k])
  {
    var w := hay[i..i + |needle|];
    forall k | 0 <= k < |needle|
      ensures LowerStr(w)[k] == LowerStr(needle)[k] <==> SameIgnoringCase(hay[i + k], needle[k])
    {
      assert w[k] == hay[i + k];
      LowerEqualIff(hay[i + k], needle[k]);
    }
    if forall k :: 0 <= k < |needle| ==> SameIgnoringCase(hay[i + k], needle[k]) {
      assert LowerStr(w) == LowerStr(needle);
    }
  }
}
