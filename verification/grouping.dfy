/** Output layout of the cipher: blocks of five letters separated by single spaces. */
module Grouping {

  /** The characters the regex `.` does not match. */
  predicate IsLineTerminator(c: char) {
    c == '\n' || c == '\r' || c == '\U{2028}' || c == '\U{2029}'
  }

  /** The pattern `(.{5})(?=.)` matches at the start of `s`. */
  predicate FiveThenMore(s: string) {
    |s| >= 6 && forall i :: 0 <= i < 6 ==> !IsLineTerminator(s[i])
  }

  /**
   * `text.replace(/(.{5})(?=.)/g, '$1 ')`: where the pattern matches, its five characters are
   * kept, a space is added and the scan resumes after them (the lookahead consumes nothing);
   * where it does not, the scan moves one character on.
   */
  function GroupByFive(s: string): string
    decreases |s|
  {
    if FiveThenMore(s) then s[..5] + " " + GroupByFive(s[5..])
    else if s == [] then []
    else [s[0]] + GroupByFive(s[1..])
  }

  function RemoveSpaces(s: string): string {
    if s == [] then [] else (if s[0] == ' ' then [] else [s[0]]) + RemoveSpaces(s[1..])
  }

  function SpaceCount(s: string): nat {
    if s == [] then 0 else (if s[0] == ' ' then 1 else 0) + SpaceCount(s[1..])
  }

  /** Text the cipher produces: no spaces and no line terminators. */
  predicate Plain(s: string) {
    forall i :: 0 <= i < |s| ==> s[i] != ' ' && !IsLineTerminator(s[i])
  }

  lemma {:induction false} RemoveSpacesAppend(a: string, b: string)
    ensures RemoveSpaces(a + b) == RemoveSpaces(a) + RemoveSpaces(b)
    ensures SpaceCount(a + b) == SpaceCount(a) + SpaceCount(b)
  {
    if a == [] {
      assert a + b == b;
    } else {
      assert (a + b)[1..] == a[1..] + b;
      RemoveSpacesAppend(a[1..], b);
    }
  }

  lemma {:induction false} RemoveSpacesCount(s: string)
    ensures |RemoveSpaces(s)| + SpaceCount(s) == |s|
    ensures (forall i :: 0 <= i < |s| ==> s[i] != ' ') ==> RemoveSpaces(s) == s && SpaceCount(s) == 0
  {
    if s != [] {
      RemoveSpacesCount(s[1..]);
    }
  }

  /** `t` is `s` with spaces inserted: every character of `s` kept in order, and only spaces added. */
  predicate SpacesInserted(s: string, t: string)
    decreases |t|
  {
    if t == [] then s == []
    else
      || (t[0] == ' ' && SpacesInserted(s, t[1..]))
      || (s != [] && s[0] == t[0] && SpacesInserted(s[1..], t[1..]))
  }

  /** Inserting spaces changes nothing once the spaces are deleted, and never removes one. */
  lemma {:induction false} SpacesInsertedRemove(s: string, t: string)
    requires SpacesInserted(s, t)
    ensures RemoveSpaces(t) == RemoveSpaces(s)
    ensures SpaceCount(t) >= SpaceCount(s) && |t| - |s| == SpaceCount(t) - SpaceCount(s)
    decreases |t|
  {
    if t != [] {
      if t[0] == ' ' && SpacesInserted(s, t[1..]) {
        SpacesInsertedRemove(s, t[1..]);
      } else {
        SpacesInsertedRemove(s[1..], t[1..]);
      }
    }
  }

  lemma {:induction false} SpacesInsertedPrefix(p: string, s: string, t: string)
    requires SpacesInserted(s, t)
    ensures SpacesInserted(p + s, p + t)
  {
    if p != [] {
      SpacesInsertedPrefix(p[1..], s, t);
      assert (p + s)[1..] == p[1..] + s;
      assert (p + t)[1..] == p[1..] + t;
      assert (p + s)[0] == p[0] == (p + t)[0];
    } else {
      assert p + s == s && p + t == t;
    }
  }

  /**
   * Grouping only inserts spaces: every character of the input, spaces included, is kept in order,
   * so deleting spaces before or after grouping gives the same text.
   */
  lemma {:induction false} GroupByFiveOnlyAddsSpaces(s: string)
    ensures SpacesInserted(s, GroupByFive(s))
    ensures RemoveSpaces(GroupByFive(s)) == RemoveSpaces(s)
    decreases |s|
  {
    if FiveThenMore(s) {
      var g := GroupByFive(s[5..]);
      assert SpacesInserted(s[5..], " " + g) by {
        GroupByFiveOnlyAddsSpaces(s[5..]);
        assert (" " + g)[1..] == g;
      }
      assert GroupByFive(s) == s[..5] + (" " + g);
      assert SpacesInserted(s[..5] + s[5..], s[..5] + (" " + g)) by {
        SpacesInsertedPrefix(s[..5], s[5..], " " + g);
      }
      assert s[..5] + s[5..] == s;
    } else if s != [] {
      assert SpacesInserted([s[0]] + s[1..], [s[0]] + GroupByFive(s[1..])) by {
        GroupByFiveOnlyAddsSpaces(s[1..]);
        SpacesInsertedPrefix([s[0]], s[1..], GroupByFive(s[1..]));
      }
      assert [s[0]] + s[1..] == s;
    }
    SpacesInsertedRemove(s, GroupByFive(s));
  }

  /**
   * The layout of grouped plain text, index by index: positions 5, 11, 17, ... hold the spaces and
   * every other position `i` holds letter `5 * (i / 6) + i % 6` of the input.
   */
  lemma GroupByFiveLayout(s: string)
    requires Plain(s)
    ensures |GroupByFive(s)| == |s| + (if |s| == 0 then 0 else (|s| - 1) / 5)
    ensures forall i :: 0 <= i < |GroupByFive(s)| ==> (GroupByFive(s)[i] == ' ' <==> i % 6 == 5)
    ensures forall i :: 0 <= i < |GroupByFive(s)| && i % 6 != 5 ==> GroupByFive(s)[i] == s[i / 6 * 5 + i % 6]
  {
    LayoutHolds(s);
  }

  /** `r` is `s` laid out in blocks of five separated by single spaces. */
  predicate LaidOut(s: string, r: string) {
    && |r| == |s| + (if |s| == 0 then 0 else (|s| - 1) / 5)
    && (forall i :: 0 <= i < |r| ==> (r[i] == ' ' <==> i % 6 == 5))
    && (forall i :: 0 <= i < |r| && i % 6 != 5 ==> i / 6 * 5 + i % 6 < |s| && r[i] == s[i / 6 * 5 + i % 6])
  }

  lemma {:induction false} LayoutHolds(s: string)
    requires Plain(s)
    ensures LaidOut(s, GroupByFive(s))
    decreases |s|
  {
    if FiveThenMore(s) {
      assert Plain(s[5..]) by {
        forall i | 0 <= i < |s[5..]| ensures s[5..][i] == s[i + 5] {}
      }
      LayoutHolds(s[5..]);
      LayoutBlock(s, GroupByFive(s[5..]));
    } else if s != [] {
      assert |s| < 6;
      assert Plain(s[1..]) by {
        forall i | 0 <= i < |s[1..]| ensures s[1..][i] == s[i + 1] {}
      }
      LayoutHolds(s[1..]);
      LayoutShort(s, GroupByFive(s[1..]));
    }
  }

  /** A full block of five, a space, and the layout of the rest is the layout of the whole. */
  lemma LayoutBlock(s: string, rt: string)
    requires Plain(s) && |s| >= 6 && LaidOut(s[5..], rt)
    ensures LaidOut(s, s[..5] + " " + rt)
  {
    var t := s[5..];
    var r := s[..5] + " " + rt;
    forall i | 0 <= i < |r|
      ensures r[i] == ' ' <==> i % 6 == 5
      ensures i % 6 != 5 ==> i / 6 * 5 + i % 6 < |s| && r[i] == s[i / 6 * 5 + i % 6]
    {
      if i >= 6 {
        var j := i - 6;
        assert r[i] == rt[j];
        NextBlock(i);
        if j % 6 != 5 {
          assert rt[j] == t[j / 6 * 5 + j % 6];
        }
      } else {
        assert i / 6 == 0 && i % 6 == i;
      }
    }
    assert |r| == |s| + (|s| - 1) / 5 by {
      assert |t| == |s| - 5 > 0;
      assert (|s| - 1) / 5 == 1 + (|t| - 1) / 5;
    }
  }

  /** Fewer than six characters are laid out unchanged. */
  lemma LayoutShort(s: string, rt: string)
    requires Plain(s) && 0 < |s| < 6 && LaidOut(s[1..], rt)
    ensures LaidOut(s, [s[0]] + rt)
  {
    var t := s[1..];
    var r := [s[0]] + rt;
    assert |rt| == |t|;
    forall i | 0 <= i < |r|
      ensures r[i] == ' ' <==> i % 6 == 5
      ensures i % 6 != 5 ==> i / 6 * 5 + i % 6 < |s| && r[i] == s[i / 6 * 5 + i % 6]
    {
      assert i < 6 && i / 6 == 0 && i % 6 == i;
      if i >= 1 {
        assert (i - 1) / 6 == 0 && (i - 1) % 6 == i - 1;
        assert r[i] == rt[i - 1] == t[i - 1] == s[i];
      }
    }
  }

  /** Moving one block of six to the right keeps the position in the block and advances the letter by five. */
  lemma NextBlock(i: int)
    requires i >= 6
    ensures (i - 6) % 6 == i % 6 && (i - 6) / 6 == i / 6 - 1
    ensures (i - 6) / 6 * 5 + (i - 6) % 6 + 5 == i / 6 * 5 + i % 6
  {
  }

  /**
   * Consequences of the layout: deleting the spaces gives the input back, exactly `(n - 1) / 5`
   * spaces are inserted, and none leads or trails.
   */
  lemma GroupByFiveBlocks(s: string)
    requires Plain(s)
    ensures RemoveSpaces(GroupByFive(s)) == s
    ensures SpaceCount(GroupByFive(s)) == if |s| == 0 then 0 else (|s| - 1) / 5
    ensures |s| > 0 ==> GroupByFive(s)[0] != ' ' && GroupByFive(s)[|GroupByFive(s)| - 1] != ' '
  {
    var r := GroupByFive(s);
    GroupByFiveOnlyAddsSpaces(s);
    RemoveSpacesCount(s);
    RemoveSpacesCount(r);
    GroupByFiveEdges(s);
  }

  lemma GroupByFiveEdges(s: string)
    requires Plain(s)
    ensures |GroupByFive(s)| == |s| + (if |s| == 0 then 0 else (|s| - 1) / 5)
    ensures |s| > 0 ==> GroupByFive(s)[0] != ' ' && GroupByFive(s)[|GroupByFive(s)| - 1] != ' '
  {
    var r := GroupByFive(s);
    GroupByFiveLayout(s);
    if |s| > 0 {
      var q := (|s| - 1) / 5;
      var last := |r| - 1;
      assert last == 6 * q + (|s| - 1) % 5;
      assert last % 6 == (|s| - 1) % 5;
    }
  }

  /** Every block holds five letters except the last, which is the final 1 to 5 letters of the input. */
  lemma GroupByFiveLastBlock(s: string)
    requires Plain(s) && |s| > 0
    ensures var q := (|s| - 1) / 5;
      && 1 <= |s| - 5 * q <= 5
      && |GroupByFive(s)| == 6 * q + (|s| - 5 * q)
      && GroupByFive(s)[6 * q..] == s[5 * q..]
  {
    LayoutHolds(s);
    LastBlockOf(s, GroupByFive(s));
  }

  /** The last block of any layout of `s`. */
  lemma LastBlockOf(s: string, r: string)
    requires |s| > 0 && LaidOut(s, r)
    ensures var q := (|s| - 1) / 5;
      && 1 <= |s| - 5 * q <= 5
      && |r| == 6 * q + (|s| - 5 * q)
      && r[6 * q..] == s[5 * q..]
  {
    var q := (|s| - 1) / 5;
    forall i | 6 * q <= i < |r|
      ensures r[i] == s[i - q]
    {
      assert 6 * q <= i < 6 * q + 5;
      assert i / 6 == q && i % 6 == i - 6 * q;
      assert i / 6 * 5 + i % 6 == i - q;
    }
  }

  /** Nine letters become one full block and a block of four. */
  lemma GroupByFiveExample()
    ensures GroupByFive("абвгдежзи") == "абвгд ежзи"
  {
    var s := "абвгдежзи";
    assert FiveThenMore(s);
    var t := s[5..];
    assert t == "ежзи";
    assert !FiveThenMore(t);
    assert GroupByFive(t) == t by {
      assert Plain(t);
      GroupByFiveLayout(t);
    }
  }
}
