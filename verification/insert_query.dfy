/** The VALUES list of the batch insert that both indexers issue for the CRDs
    of one tag: `(` `$1,...,$k` `)` `,` `(` `$k+1,...` `)` ... — n groups of
    k positional parameters, numbered consecutively from 1. This module gives
    the rendering as functions, a parser that reads such a list back, and the
    facts about the numbering; the loop that builds the string is
    Indexer.BuildInsert. */
module InsertQuery {
  import opened Strings

  /** `$n`, the n-th positional parameter. */
  function Placeholder(n: nat): string
  {
    "$" + Dec(n)
  }

  /** `$a,$b,...,$z`. */
  function PlaceholderList(nums: seq<nat>): string
  {
    if |nums| == 0 then ""
    else if |nums| == 1 then Placeholder(nums[0])
    else Placeholder(nums[0]) + "," + PlaceholderList(nums[1..])
  }

  /** One parenthesised group. */
  function Group(nums: seq<nat>): string
  {
    "(" + PlaceholderList(nums) + ")"
  }

  /** Groups joined by single commas, with no comma before the first or after the last. */
  function Render(groups: seq<seq<nat>>): string
  {
    if |groups| == 0 then ""
    else if |groups| == 1 then Group(groups[0])
    else Group(groups[0]) + "," + Render(groups[1..])
  }

  /** The parameter numbers of group i (from 0) when every group has k: i*k+1 .. i*k+k. */
  function Row(k: nat, i: nat): seq<nat>
  {
    seq(k, j requires 0 <= j < k => i * k + j + 1)
  }

  /** The numbering of n groups of k parameters. */
  function Numbering(k: nat, n: nat): seq<seq<nat>>
  {
    seq(n, i requires 0 <= i < n => Row(k, i))
  }

  /** Go's `for i := 0; i < n; i++` runs no iteration for a negative bound. */
  function Count(n: int): nat
  {
    if n < 0 then 0 else n
  }

  /** The concatenation of the groups, in order. */
  function Flatten(groups: seq<seq<nat>>): seq<nat>
  {
    if groups == [] then [] else Flatten(groups[..|groups| - 1]) + groups[|groups| - 1]
  }

  // ---------------------------------------------------------------------
  // Appending at the end, as the building loops do
  // ---------------------------------------------------------------------

  lemma {:induction false} PlaceholderListSnoc(nums: seq<nat>, x: nat)
    requires |nums| > 0
    ensures PlaceholderList(nums + [x]) == PlaceholderList(nums) + "," + Placeholder(x)
  {
    if |nums| > 1 {
      assert (nums + [x])[1..] == nums[1..] + [x];
      PlaceholderListSnoc(nums[1..], x);
    } else {
      assert (nums + [x])[1..] == [x];
    }
  }

  lemma {:induction false} RenderSnoc(groups: seq<seq<nat>>, g: seq<nat>)
    requires |groups| > 0
    ensures Render(groups + [g]) == Render(groups) + "," + Group(g)
  {
    var all := groups + [g];
    assert all[0] == groups[0];
    if |groups| > 1 {
      assert all[1..] == groups[1..] + [g];
      RenderSnoc(groups[1..], g);
      calc {
        Render(all);
        Group(groups[0]) + "," + Render(groups[1..] + [g]);
        Group(groups[0]) + "," + (Render(groups[1..]) + "," + Group(g));
        (Group(groups[0]) + "," + Render(groups[1..])) + "," + Group(g);
      }
    } else {
      assert all[1..] == [g];
      assert Render(all) == Group(groups[0]) + "," + Render([g]);
    }
  }

  lemma NumberingSnoc(k: nat, n: nat)
    ensures Numbering(k, n + 1) == Numbering(k, n) + [Row(k, n)]
  {
  }

  // ---------------------------------------------------------------------
  // Reading the list back
  // ---------------------------------------------------------------------

  /** Reads `$<digits>` at the head of s. */
  function ParsePlaceholder(s: string): (r: Option<(nat, string)>)
    ensures r.Some? ==> |r.value.1| < |s|
  {
    if |s| >= 2 && s[0] == '$' && DigitRun(s[1..]) > 0 then
      var n := DigitRun(s[1..]);
      Some((DigitsValue(s[1..][..n]), s[1..][n..]))
    else None
  }

  /** Reads `$a,...,$z` (at least one) at the head of s. */
  function ParseList(s: string): (r: Option<(seq<nat>, string)>)
    ensures r.Some? ==> |r.value.1| < |s|
    decreases |s|
  {
    match ParsePlaceholder(s)
    case None => None
    case Some((x, rest)) =>
      if |rest| > 0 && rest[0] == ',' then
        match ParseList(rest[1..])
        case None => None
        case Some((xs, rest')) => Some(([x] + xs, rest'))
      else Some(([x], rest))
  }

  /** Reads one `( ... )` group at the head of s. */
  function ParseGroup(s: string): (r: Option<(seq<nat>, string)>)
    ensures r.Some? ==> |r.value.1| < |s|
  {
    if |s| >= 2 && s[0] == '(' && s[1] == ')' then Some(([], s[2..]))
    else if |s| >= 1 && s[0] == '(' then
      match ParseList(s[1..])
      case None => None
      case Some((xs, rest)) =>
        if |rest| > 0 && rest[0] == ')' then Some((xs, rest[1..])) else None
    else None
  }

  /** Reads one or more comma-separated groups that make up all of s. */
  function ParseGroups(s: string): Option<seq<seq<nat>>>
    decreases |s|
  {
    match ParseGroup(s)
    case None => None
    case Some((g, rest)) =>
      if rest == [] then Some([g])
      else if rest[0] == ',' then
        match ParseGroups(rest[1..])
        case None => None
        case Some(gs) => Some([g] + gs)
      else None
  }

  /** Reads a whole VALUES list: nothing at all, or one or more groups. */
  function ParseValues(s: string): Option<seq<seq<nat>>>
  {
    if s == [] then Some([]) else ParseGroups(s)
  }

  lemma ParsePlaceholderOf(x: nat, rest: string)
    requires rest == [] || !IsDigit(rest[0])
    ensures ParsePlaceholder(Placeholder(x) + rest) == Some((x, rest))
  {
    var s := Placeholder(x) + rest;
    assert s[1..] == Dec(x) + rest;
    DigitRunOfDec(x, rest);
    DecValue(x);
  }

  /** One placeholder followed by something that is not a comma is a whole list. */
  lemma ParseListOne(x: nat, rest: string)
    requires |rest| > 0 && rest[0] != ',' && !IsDigit(rest[0])
    ensures ParseList(Placeholder(x) + rest) == Some(([x], rest))
  {
    ParsePlaceholderOf(x, rest);
  }

  /** A placeholder and a comma put x in front of the list that follows. */
  lemma ParseListCons(x: nat, tail: string, xs: seq<nat>, rest: string)
    requires ParseList(tail) == Some((xs, rest))
    ensures ParseList(Placeholder(x) + ("," + tail)) == Some(([x] + xs, rest))
  {
    ParsePlaceholderOf(x, "," + tail);
    assert ("," + tail)[1..] == tail;
  }

  /** A non-empty placeholder list followed by `)` reads back as its numbers. */
  lemma {:induction false} ParseListOf(nums: seq<nat>, rest: string)
    requires |nums| > 0
    requires |rest| > 0 && rest[0] == ')'
    ensures ParseList(PlaceholderList(nums) + rest) == Some((nums, rest))
    decreases |nums|
  {
    if |nums| == 1 {
      ParseListOne(nums[0], rest);
      assert [nums[0]] == nums;
    } else {
      var head := Placeholder(nums[0]);
      var tl := PlaceholderList(nums[1..]);
      assert PlaceholderList(nums) == head + "," + tl;
      assert PlaceholderList(nums) + rest == head + ("," + (tl + rest));
      ParseListOf(nums[1..], rest);
      ParseListCons(nums[0], tl + rest, nums[1..], rest);
      assert [nums[0]] + nums[1..] == nums;
    }
  }

  lemma ParseGroupOf(nums: seq<nat>, rest: string)
    ensures ParseGroup(Group(nums) + rest) == Some((nums, rest))
  {
    var s := Group(nums) + rest;
    if |nums| == 0 {
      assert s == "()" + rest;
      assert s[2..] == rest;
    } else {
      assert s[1..] == PlaceholderList(nums) + (")" + rest);
      ParseListOf(nums, ")" + rest);
      assert (")" + rest)[1..] == rest;
      assert PlaceholderList(nums) != [] by {
        assert Placeholder(nums[0])[0] == '$';
      }
      assert s[1] == '$' by {
        assert |nums| == 1 || PlaceholderList(nums) == Placeholder(nums[0]) + "," + PlaceholderList(nums[1..]);
      }
    }
  }

  lemma {:induction false} ParseGroupsOf(groups: seq<seq<nat>>)
    requires |groups| > 0
    ensures ParseGroups(Render(groups)) == Some(groups)
    decreases |groups|
  {
    if |groups| == 1 {
      ParseGroupOf(groups[0], "");
      assert Group(groups[0]) + "" == Group(groups[0]);
      assert [groups[0]] == groups;
    } else {
      var tail := Render(groups[1..]);
      ParseGroupOf(groups[0], "," + tail);
      assert Render(groups) == Group(groups[0]) + ("," + tail);
      assert ("," + tail)[1..] == tail;
      ParseGroupsOf(groups[1..]);
      assert [groups[0]] + groups[1..] == groups;
    }
  }

  /** Render is read back exactly by ParseValues: the string holds the groups
      and nothing else (no stray or trailing comma). */
  lemma ParseValuesOf(groups: seq<seq<nat>>)
    ensures ParseValues(Render(groups)) == Some(groups)
  {
    if |groups| > 0 {
      ParseGroupsOf(groups);
      assert Render(groups)[0] == '(' by {
        if |groups| > 1 {
          assert Render(groups) == Group(groups[0]) + "," + Render(groups[1..]);
        }
      }
    }
  }

  // ---------------------------------------------------------------------
  // The numbering
  // ---------------------------------------------------------------------

  /** 1..a+b is 1..a followed by a+1..a+b. */
  lemma CountingSplit(a: nat, b: nat)
    ensures seq(a + b, p requires 0 <= p => p + 1) ==
            seq(a, p requires 0 <= p => p + 1) + seq(b, j requires 0 <= j => a + j + 1)
  {
  }

  /** Group n (from 0) of k numbers starts right after the first n groups. */
  lemma RowAfter(k: nat, n: nat)
    ensures k * (n + 1) == k * n + k
    ensures Row(k, n) == seq(k, j requires 0 <= j => k * n + j + 1)
  {
    assert n * k == k * n;
  }

  /** The numbering has n groups of k numbers each, and read left to right
      they are exactly 1, 2, ..., k*n: each number once, strictly increasing. */
  lemma {:induction false} NumberingFlat(k: nat, n: nat)
    ensures |Numbering(k, n)| == n
    ensures forall i :: 0 <= i < n ==> |Numbering(k, n)[i]| == k
    ensures Flatten(Numbering(k, n)) == seq(k * n, p requires 0 <= p => p + 1)
  {
    if n > 0 {
      var m := n - 1;
      NumberingFlat(k, m);
      NumberingSnoc(k, m);
      RowAfter(k, m);
      CountingSplit(k * m, k);
      assert Numbering(k, n)[..m] == Numbering(k, m);
      assert Flatten(Numbering(k, n)) == Flatten(Numbering(k, m)) + Row(k, m);
    }
  }

  /** The full statement built for n rows of k columns: the prefix, then a
      VALUES list that reads back as the numbering; no rows, no list. */
  lemma InsertStatementShape(q: string, k: nat, n: nat)
    ensures var s := q + Render(Numbering(k, n));
      s[..|q|] == q && ParseValues(s[|q|..]) == Some(Numbering(k, n))
    ensures n == 0 ==> q + Render(Numbering(k, n)) == q
  {
    var groups := Numbering(k, n);
    var s := q + Render(groups);
    assert s[..|q|] == q;
    assert s[|q|..] == Render(groups);
    ParseValuesOf(groups);
    if n == 0 {
      assert groups == [];
      assert s == q + "";
    }
  }
}
