/** Field names as requests may spell them, and table names. */
module Names {

  predicate IsUpper(c: char) {
    'A' <= c <= 'Z'
  }

  /** The bytes lowerName puts for byte i. */
  function LowerAt(s: string, i: nat): string
    requires i < |s|
  {
    if !IsUpper(s[i]) then [s[i]]
    else (if i > 0 && !IsUpper(s[i - 1]) then "-" else "") + [s[i] - 'A' + 'a']
  }

  function LowerPrefix(s: string, n: nat): string
    requires n <= |s|
  {
    if n == 0 then "" else LowerPrefix(s, n - 1) + LowerAt(s, n - 1)
  }

  /** "TableName" becomes "table-name". */
  function Lower(s: string): string {
    LowerPrefix(s, |s|)
  }

  method LowerName(s: string) returns (b: string)
    ensures b == Lower(s)
  {
    b := "";
    for i := 0 to |s|
      invariant b == LowerPrefix(s, i)
    {
      var c := s[i];
      if c >= 'A' && c <= 'Z' {
        if i > 0 && (s[i - 1] < 'A' || s[i - 1] > 'Z') {
          b := b + ['-'];
        }
        b := b + [c - 'A' + 'a'];
      } else {
        b := b + [c];
      }
    }
  }

  predicate HasUpper(s: string) {
    exists i :: 0 <= i < |s| && IsUpper(s[i])
  }

  lemma {:induction false} LowerPrefixIsLower(s: string, n: nat)
    requires n <= |s|
    ensures !HasUpper(LowerPrefix(s, n))
    ensures (forall i :: 0 <= i < n ==> !IsUpper(s[i])) ==> LowerPrefix(s, n) == s[..n]
    decreases n
  {
    if n > 0 {
      LowerPrefixIsLower(s, n - 1);
    }
  }

  /** Lowering leaves exactly the names without upper case alone, and no name
      lowers to a tag with an upper-case letter. */
  lemma LowerKeepsIff(s: string)
    ensures Lower(s) == s <==> !HasUpper(s)
    ensures forall t :: HasUpper(t) ==> Lower(s) != t
  {
    LowerPrefixIsLower(s, |s|);
    assert s[..|s|] == s;
  }

  /** The ASCII codes of the capital letters. */
  predicate Capital(c: char) {
    65 <= c as int <= 90
  }

  /** A dash goes before every capital that follows another character. */
  function Dashed(s: string): string {
    if |s| <= 1 then s
    else (if Capital(s[1]) && !Capital(s[0]) then [s[0], '-'] else [s[0]]) + Dashed(s[1..])
  }

  /** Each capital becomes the small letter, whose code is 32 more. */
  predicate Small(s: string, t: string) {
    |t| == |s| && forall i :: 0 <= i < |s| ==> t[i] as int == s[i] as int + (if Capital(s[i]) then 32 else 0)
  }

  function LowerFrom(s: string, n: nat): string
    requires n <= |s|
    decreases |s| - n
  {
    if n == |s| then "" else LowerAt(s, n) + LowerFrom(s, n + 1)
  }

  lemma {:induction false} LowerSplits(s: string, n: nat)
    requires n <= |s|
    ensures LowerPrefix(s, n) + LowerFrom(s, n) == Lower(s)
    decreases |s| - n
  {
    if n < |s| {
      LowerSplits(s, n + 1);
      assert LowerPrefix(s, n) + LowerAt(s, n) == LowerPrefix(s, n + 1);
    }
  }

  lemma SmallAppend(a: string, b: string, c: string, d: string)
    requires Small(a, c) && Small(b, d)
    ensures Small(a + b, c + d)
  {
  }

  function DashAt(s: string, n: nat): string
    requires n < |s|
  {
    if n > 0 && IsUpper(s[n]) && !IsUpper(s[n - 1]) then "-" else ""
  }

  lemma LowerAtIsSmall(s: string, n: nat)
    requires n < |s|
    ensures Small(DashAt(s, n) + [s[n]], LowerAt(s, n))
  {
  }

  lemma DashedStep(s: string, n: nat)
    requires n < |s|
    ensures Dashed(s[n..]) == [s[n]] + (if n + 1 < |s| then DashAt(s, n + 1) + Dashed(s[n + 1..]) else "")
  {
    var tail := s[n..];
    assert tail[0] == s[n] && tail[1..] == s[n + 1..];
    if n + 1 < |s| {
      assert tail[1] == s[n + 1];
    }
  }

  lemma SmallStep(s: string, n: nat, rest: string, low: string)
    requires n < |s| && Small(rest, low)
    ensures Small(DashAt(s, n) + ([s[n]] + rest), LowerAt(s, n) + low)
  {
    LowerAtIsSmall(s, n);
    SmallAppend(DashAt(s, n) + [s[n]], rest, LowerAt(s, n), low);
    assert DashAt(s, n) + ([s[n]] + rest) == DashAt(s, n) + [s[n]] + rest;
  }

  lemma {:induction false} LowerFromIsSmall(s: string, n: nat)
    requires n < |s|
    ensures Small(DashAt(s, n) + Dashed(s[n..]), LowerFrom(s, n))
    decreases |s| - n
  {
    var rest := if n + 1 < |s| then DashAt(s, n + 1) + Dashed(s[n + 1..]) else "";
    if n + 1 < |s| {
      LowerFromIsSmall(s, n + 1);
    }
    DashedStep(s, n);
    SmallStep(s, n, rest, LowerFrom(s, n + 1));
  }

  /** "TableName" becomes "table-name": dashes first, then small letters. */
  lemma LowerIsSmall(s: string)
    ensures Small(Dashed(s), Lower(s))
  {
    LowerSplits(s, 0);
    if s != "" {
      LowerFromIsSmall(s, 0);
      assert s[0..] == s && DashAt(s, 0) + Dashed(s) == Dashed(s);
    }
  }

  /** Pieces joined by two underscores. */
  function Join(tags: seq<string>): string {
    if tags == [] then ""
    else if |tags| == 1 then tags[0]
    else tags[0] + "__" + Join(tags[1..])
  }

  function LowerAll(pieces: seq<string>): (tags: seq<string>)
    ensures |tags| == |pieces|
  {
    seq(|pieces|, i requires 0 <= i < |pieces| => Lower(pieces[i]))
  }

  /** The name of one tag is that tag; lists of tags are joined by "__". */
  lemma {:induction false} JoinSplits(tags: seq<string>, more: seq<string>)
    requires tags != [] && more != []
    ensures Join([tags[0]]) == tags[0] && Join(tags + more) == Join(tags) + "__" + Join(more)
    decreases |tags|
  {
    var all := tags + more;
    assert all[0] == tags[0];
    if |tags| > 1 {
      JoinSplits(tags[1..], more);
      assert all[1..] == tags[1..] + more;
    } else {
      assert all[1..] == more;
    }
  }
}
