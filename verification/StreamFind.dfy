/** Searching a stream for several strings at once: the walk back of Stream::findMulti against naive search. */
module StreamFind {
  import opened Words

  /** s ends with t. */
  predicate Ends(t: seq<byte>, s: seq<byte>) { |t| <= |s| && s[|s| - |t|..] == t }

  lemma EmptyEnds(s: seq<byte>)
    ensures s[..0] == [] && Ends([], s) && Ends([], s[..0])
  {
  }

  /** The longest proper prefix of t that s ends with has length m. */
  ghost predicate IsLongest(t: seq<byte>, s: seq<byte>, m: nat) {
    && m < |t| && Ends(t[..m], s)
    && forall k :: m < k < |t| ==> !Ends(t[..k], s)
  }

  lemma EndsSnoc(t: seq<byte>, s: seq<byte>, x: byte, c: byte)
    ensures Ends(t + [x], s + [c]) <==> Ends(t, s) && x == c
  {
    var a, b := t + [x], s + [c];
    if |t| <= |s| {
      var n := |s| - |t|;
      assert b[n..] == s[n..] + [c];
      assert Ends(a, b) <==> s[n..] + [c] == t + [x];
      SnocEqual(s[n..], t, c, x);
    }
  }

  lemma SnocEqual(a: seq<byte>, b: seq<byte>, x: byte, y: byte)
    requires |a| == |b|
    ensures a + [x] == b + [y] <==> a == b && x == y
  {
    if a + [x] == b + [y] {
      assert a == (a + [x])[..|a|] && b == (b + [y])[..|b|];
      assert x == (a + [x])[|a|] && y == (b + [y])[|b|];
    }
  }

  /** A nonempty prefix ends the longer stream iff the prefix without its last byte ends the stream before. */
  lemma PrefixSnoc(t: seq<byte>, s: seq<byte>, k: nat, c: byte)
    requires 0 < k <= |t|
    ensures Ends(t[..k], s + [c]) <==> Ends(t[..k - 1], s) && t[k - 1] == c
  {
    assert t[..k] == t[..k - 1] + [t[k - 1]];
    EndsSnoc(t[..k - 1], s, t[k - 1], c);
  }

  /** Two prefixes that both end the stream: the shorter one ends the longer one. */
  lemma ShorterEnds(t: seq<byte>, s: seq<byte>, m: nat, k: nat)
    requires k <= m <= |t| && Ends(t[..m], s)
    ensures Ends(t[..k], s) <==> t[..k] == t[m - k..m]
  {
    var n := |s| - m;
    assert s[n..] == t[..m];
    assert s[|s| - k..] == s[n..][m - k..] == t[m - k..m];
  }

  /** The next byte is the expected one. */
  lemma Continues(t: seq<byte>, s: seq<byte>, m: nat, c: byte)
    requires IsLongest(t, s, m) && t[m] == c
    ensures m + 1 == |t| <==> Ends(t, s + [c])
    ensures m + 1 < |t| ==> IsLongest(t, s + [c], m + 1)
  {
    PrefixSnoc(t, s, m + 1, c);
    NoLonger(t, s, m, c);
    assert t[..|t|] == t;
  }

  /** No prefix grows that was not there. */
  lemma NoLonger(t: seq<byte>, s: seq<byte>, m: nat, c: byte)
    requires IsLongest(t, s, m)
    ensures forall k :: m + 1 < k <= |t| ==> !Ends(t[..k], s + [c])
  {
    forall k | m + 1 < k <= |t| ensures !Ends(t[..k], s + [c]) {
      PrefixSnoc(t, s, k, c);
    }
  }

  /** Place i works for the next byte c when m bytes were matched: c follows the first i bytes, and they end the m
      bytes. */
  ghost predicate Works(t: seq<byte>, m: nat, i: nat, c: byte)
    requires i < m < |t|
  {
    t[i] == c && t[..i] == t[m - i..m]
  }

  lemma WorksMeans(t: seq<byte>, s: seq<byte>, m: nat, k: nat, c: byte)
    requires 0 < k <= m < |t| && Ends(t[..m], s)
    ensures Works(t, m, k - 1, c) <==> Ends(t[..k], s + [c])
  {
    hide Ends;
    PrefixSnoc(t, s, k, c);
    ShorterEnds(t, s, m, k - 1);
    assert m - (k - 1) == m - k + 1;
  }

  lemma NotThatOne(t: seq<byte>, s: seq<byte>, m: nat, c: byte)
    requires m < |t| && t[m] != c
    ensures !Ends(t[..m + 1], s + [c])
  {
    hide Ends;
    PrefixSnoc(t, s, m + 1, c);
  }

  /** The walk back finds the longest prefix. */
  lemma WalkedBack(t: seq<byte>, s: seq<byte>, m: nat, c: byte, next: nat)
    requires IsLongest(t, s, m) && t[m] != c && next <= m
    requires forall i :: next <= i < m ==> !Works(t, m, i, c)
    requires next > 0 ==> Works(t, m, next - 1, c)
    ensures IsLongest(t, s + [c], next) && !Ends(t, s + [c])
  {
    hide Ends, Works;
    EmptyEnds(s + [c]);
    assert t[..0] == [] && t[..|t|] == t;
    NoLonger(t, s, m, c);
    NotThatOne(t, s, m, c);
    forall k | next < k < |t| ensures !Ends(t[..k], s + [c]) {
      if k <= m {
        WorksMeans(t, s, m, k, c);
        var i := k - 1;
        assert !Works(t, m, i, c);
      }
    }
    if next > 0 {
      WorksMeans(t, s, m, next, c);
    }
    assert |t| == m + 1 || |t| > m + 1;
  }

  /** struct MultiTarget. */
  class MultiTarget {
    const str: seq<byte>
    var index: nat

    constructor (str: seq<byte>)
      ensures this.str == str && index == 0
    {
      this.str := str;
      index := 0;
    }

    /** The comparison inside the walk back. */
    method Fits(diff: nat) returns (ok: bool)
      requires diff + index <= |str|
      ensures ok <==> str[..index] == str[diff..diff + index]
    {
      var i := 0;
      while i < index
        invariant 0 <= i <= index && str[..i] == str[diff..diff + i]
      {
        if str[i] != str[i + diff] {
          assert str[..index][i] != str[diff..diff + index][i];
          return false;
        }
        assert str[..i + 1] == str[..i] + [str[i]];
        assert str[diff..diff + (i + 1)] == str[diff..diff + i] + [str[i + diff]];
        i := i + 1;
      }
      ok := true;
    }

    /** The do loop of findMulti: the index goes back to the largest place that works, and behind it. */
    method WalkBack(c: byte, ghost s: seq<byte>)
      requires IsLongest(str, s, index) && str[index] != c && index > 0
      modifies this
      ensures IsLongest(str, s + [c], index) && !Ends(str, s + [c])
    {
      hide Ends, IsLongest;
      MatchedBelow(str, s, index);
      var orig := index;
      while true
        invariant 0 < index <= orig && forall i :: index <= i < orig ==> !Works(str, orig, i, c)
        decreases index
      {
        index := index - 1;
        if c == str[index] {
          if index == 0 {
            assert str[..0] == str[orig..orig];
            index := index + 1;
            break;
          }
          var ok := Fits(orig - index);
          if ok {
            index := index + 1;
            break;
          }
        }
        if index == 0 {
          break;
        }
      }
      WalkedBack(str, s, orig, c, index);
    }

    /** One byte for one target. */
    method Advance(c: byte, ghost s: seq<byte>) returns (complete: bool)
      requires IsLongest(str, s, index)
      modifies this
      ensures complete <==> Ends(str, s + [c])
      ensures !complete ==> IsLongest(str, s + [c], index)
    {
      hide Ends, IsLongest;
      MatchedBelow(str, s, index);
      complete := false;
      if c == str[index] {
        Continues(str, s, index, c);
        index := index + 1;
        if index == |str| {
          complete := true;
        }
        return;
      }
      if index == 0 {
        WalkedBack(str, s, 0, c, 0);
        return;
      }
      WalkBack(c, s);
    }
  }

  /** No target is a suffix of what has been read; each index says how far its target is matched. */
  ghost predicate Searching(targets: seq<MultiTarget>, s: seq<byte>)
    reads targets
  {
    forall j :: 0 <= j < |targets| ==> IsLongest(targets[j].str, s, targets[j].index)
  }

  /** No target occurs before the end of the first n bytes. */
  ghost predicate NoneUpTo(targets: seq<MultiTarget>, input: seq<byte>, n: nat)
    requires n <= |input|
  {
    forall p, j :: 0 <= p <= n && 0 <= j < |targets| ==> !Ends(targets[j].str, input[..p])
  }

  /** Target r is the first one, in order of numbers, to complete, and it does so at the earliest position. */
  ghost predicate IsFound(targets: seq<MultiTarget>, input: seq<byte>, used: nat, r: nat) {
    && r < |targets| && 0 < used <= |input|
    && Ends(targets[r].str, input[..used]) && (forall j :: 0 <= j < r ==> !Ends(targets[j].str, input[..used]))
    && NoneUpTo(targets, input, used - 1)
  }

  /** Stream::findMulti on the bytes that come before a timeout: the number of the target found or -1, and how many
      bytes have been read. */
  method FindMulti(targets: seq<MultiTarget>, input: seq<byte>) returns (r: int, used: nat)
    requires forall i, j :: 0 <= i < j < |targets| ==> targets[i] != targets[j]
    requires forall j :: 0 <= j < |targets| ==> targets[j].index == 0
    modifies targets
    ensures used <= |input|
    ensures (exists j :: 0 <= j < |targets| && targets[j].str == []) ==>
      used == 0 && 0 <= r < |targets| && targets[r].str == [] && forall j :: 0 <= j < r ==> targets[j].str != []
    ensures (forall j :: 0 <= j < |targets| ==> targets[j].str != []) ==>
      if r >= 0 then IsFound(targets, input, used, r)
      else r == -1 && used == |input| && NoneUpTo(targets, input, |input|)
  {
    var e := FirstEmpty(targets);
    if e >= 0 {
      return e, 0;
    }
    r, used := Search(targets, input);
  }

  /** The first loop of findMulti: the first empty target, or -1. */
  method FirstEmpty(targets: seq<MultiTarget>) returns (r: int)
    ensures -1 <= r < |targets|
    ensures r >= 0 ==> targets[r].str == [] && forall j :: 0 <= j < r ==> targets[j].str != []
    ensures r < 0 ==> forall j :: 0 <= j < |targets| ==> targets[j].str != []
  {
    for j := 0 to |targets|
      invariant forall i :: 0 <= i < j ==> targets[i].str != []
    {
      if |targets[j].str| <= 0 {
        return j;
      }
    }
    r := -1;
  }

  /** The endless loop of findMulti. */
  method Search(targets: seq<MultiTarget>, input: seq<byte>) returns (r: int, used: nat)
    requires forall i, j :: 0 <= i < j < |targets| ==> targets[i] != targets[j]
    requires forall j :: 0 <= j < |targets| ==> targets[j].index == 0 && targets[j].str != []
    modifies targets
    ensures used <= |input|
    ensures if r >= 0 then IsFound(targets, input, used, r)
            else r == -1 && used == |input| && NoneUpTo(targets, input, |input|)
  {
    hide Ends, IsLongest;
    StartSearch(targets, input);
    hide Searching, NoneUpTo;
    used := 0;
    while used < |input|
      invariant used <= |input| && Searching(targets, input[..used]) && NoneUpTo(targets, input, used)
    {
      var c := input[used];
      assert input[..used + 1] == input[..used] + [c];
      r := NextByte(targets, c, input[..used]);
      used := used + 1;
      if r >= 0 {
        return;
      }
      OneMoreByte(targets, input, used);
    }
    r := -1;
  }

  /** The inner loop of findMulti. */
  method NextByte(targets: seq<MultiTarget>, c: byte, ghost s: seq<byte>) returns (r: int)
    requires forall i, j :: 0 <= i < j < |targets| ==> targets[i] != targets[j]
    requires Searching(targets, s)
    modifies targets
    ensures -1 <= r < |targets|
    ensures r >= 0 ==> Ends(targets[r].str, s + [c]) && forall i :: 0 <= i < r ==> !Ends(targets[i].str, s + [c])
    ensures r < 0 ==> Searching(targets, s + [c]) && forall i :: 0 <= i < |targets| ==> !Ends(targets[i].str, s + [c])
  {
    hide Ends, IsLongest;
    for j := 0 to |targets|
      invariant forall i :: 0 <= i < j ==> IsLongest(targets[i].str, s + [c], targets[i].index)
      invariant forall i :: j <= i < |targets| ==> IsLongest(targets[i].str, s, targets[i].index)
      invariant forall i :: 0 <= i < j ==> !Ends(targets[i].str, s + [c])
    {
      var complete := targets[j].Advance(c, s);
      if complete {
        return j;
      }
    }
    r := -1;
  }

  lemma StartSearch(targets: seq<MultiTarget>, input: seq<byte>)
    requires forall j :: 0 <= j < |targets| ==> targets[j].index == 0 && targets[j].str != []
    ensures Searching(targets, input[..0]) && NoneUpTo(targets, input, 0)
  {
  }

  lemma OneMoreByte(targets: seq<MultiTarget>, input: seq<byte>, n: nat)
    requires 0 < n <= |input| && NoneUpTo(targets, input, n - 1)
    requires forall j :: 0 <= j < |targets| ==> !Ends(targets[j].str, input[..n])
    ensures NoneUpTo(targets, input, n)
  {
    hide Ends;
  }

  /** s occurs in the first n bytes. */
  ghost predicate Occurs(t: seq<byte>, input: seq<byte>, n: nat)
    requires n <= |input|
  {
    exists p :: 0 <= p <= n && Ends(t, input[..p])
  }

  datatype Terminator = NoTerminator | Until(str: seq<byte>)

  /** The target occurs, and the terminator does not occur before it. */
  ghost predicate OccursFirst(target: seq<byte>, terminator: Terminator, input: seq<byte>) {
    exists p :: 0 <= p <= |input| && Ends(target, input[..p])
      && (terminator.Until? ==> NotBefore(terminator.str, input, p))
  }

  ghost predicate NotBefore(t: seq<byte>, input: seq<byte>, p: nat)
    requires p <= |input|
  {
    forall q :: 0 <= q < p ==> !Ends(t, input[..q])
  }

  /** The input has been read up to the first end of t, or all of it if there is none. */
  ghost predicate UsedUp(t: seq<byte>, input: seq<byte>, used: nat) {
    used <= |input| && NotBefore(t, input, used) && (used < |input| ==> Ends(t, input[..used]))
  }

  /** Stream::findUntil. */
  method FindUntil(target: seq<byte>, terminator: Terminator, input: seq<byte>) returns (found: bool, used: nat)
    ensures used <= |input|
    ensures found <==> OccursFirst(target, terminator, input)
    ensures found ==> Ends(target, input[..used]) && NotBefore(target, input, used)
    ensures !found ==> if terminator.Until? then UsedUp(terminator.str, input, used) else used == |input|
  {
    if terminator == NoTerminator {
      found, used := FindOne(target, input);
    } else {
      found, used := FindEither(target, terminator.str, input);
    }
  }

  method FindOne(target: seq<byte>, input: seq<byte>) returns (found: bool, used: nat)
    ensures used <= |input| && (found <==> OccursFirst(target, NoTerminator, input))
    ensures found ==> Ends(target, input[..used]) && NotBefore(target, input, used)
    ensures !found ==> used == |input|
  {
    hide Ends, OccursFirst, NotBefore, IsFound, NoneUpTo;
    EmptyTarget(target, NoTerminator, input);
    var t := new MultiTarget(target);
    var r;
    r, used := FindMulti([t], input);
    if target != [] {
      Outcome([t], input, r, used, 0);
      JustOne(target, input, used, r);
    } else {
      assert [t][0].str == [];
    }
    found := r == 0;
  }

  method FindEither(target: seq<byte>, terminator: seq<byte>, input: seq<byte>) returns (found: bool, used: nat)
    ensures used <= |input| && (found <==> OccursFirst(target, Until(terminator), input))
    ensures found ==> Ends(target, input[..used]) && NotBefore(target, input, used)
    ensures !found ==> UsedUp(terminator, input, used)
  {
    hide Ends, OccursFirst, NotBefore, IsFound, NoneUpTo, Occurs, Early;
    EmptyTarget(target, Until(terminator), input);
    EmptyEnds(input);
    var t := new MultiTarget(target);
    var e := new MultiTarget(terminator);
    var r;
    r, used := FindMulti([t, e], input);
    if target != [] && terminator != [] {
      Outcome([t, e], input, r, used, 0);
      Outcome([t, e], input, r, used, 1);
      OneOfTwo(target, terminator, input, used, r);
    } else {
      assert [t, e][0].str == target && [t, e][1].str == terminator;
      if target != [] {
        AtOnce(target, input);
        NothingUsed(input);
      }
    }
    found := r == 0;
  }

  lemma NothingUsed(input: seq<byte>)
    ensures UsedUp([], input, 0)
  {
    EmptyEnds(input);
  }

  lemma EmptyTarget(target: seq<byte>, terminator: Terminator, input: seq<byte>)
    ensures target == [] ==> OccursFirst(target, terminator, input) && Ends(target, input[..0])
    ensures target == [] ==> NotBefore(target, input, 0)
  {
    hide Ends;
    EmptyEnds(input);
    assert NotBefore(target, input, 0);
    if terminator.Until? {
      assert NotBefore(terminator.str, input, 0);
    }
  }

  lemma JustOne(target: seq<byte>, input: seq<byte>, used: nat, r: int)
    requires used <= |input| && (r == 0 || (r == -1 && used == |input|))
    requires !Early(target, input, used) && (r == 0 ==> used > 0 && Ends(target, input[..used]))
    requires r < 0 ==> !Occurs(target, input, used)
    ensures r == 0 <==> OccursFirst(target, NoTerminator, input)
    ensures r == 0 ==> NotBefore(target, input, used)
  {
    hide Ends;
  }

  lemma OneOfTwo(target: seq<byte>, terminator: seq<byte>, input: seq<byte>, used: nat, r: int)
    requires used <= |input| && (r == 0 || r == 1 || (r == -1 && used == |input|)) && (r >= 0 ==> used > 0)
    requires !Early(target, input, used) && !Early(terminator, input, used)
    requires (r == 0 ==> Ends(target, input[..used])) && (r == 1 ==> Ends(terminator, input[..used]))
    requires r != 0 ==> !Occurs(target, input, used)
    requires terminator != []
    ensures r == 0 <==> OccursFirst(target, Until(terminator), input)
    ensures r == 0 ==> NotBefore(target, input, used)
    ensures r != 0 ==> UsedUp(terminator, input, used)
  {
    hide Ends;
  }

  /** An empty terminator ends the search before it begins, for every nonempty target. */
  lemma AtOnce(target: seq<byte>, input: seq<byte>)
    requires target != []
    ensures !OccursFirst(target, Until([]), input)
  {
    EmptyEnds(input);
    assert !Ends(target, input[..0]);
    hide Ends;
    forall p | 0 < p <= |input| ensures !NotBefore([], input, p) {
      assert Ends([], input[..0]);
    }
  }

  /** t occurs before the last of the first n bytes. */
  ghost predicate Early(t: seq<byte>, input: seq<byte>, n: nat) { 0 < n <= |input| && Occurs(t, input, n - 1) }

  /** The outcome of a search, for one of the targets. */
  lemma Outcome(targets: seq<MultiTarget>, input: seq<byte>, r: int, used: nat, j: nat)
    requires j < |targets| && used <= |input|
    requires if r >= 0 then IsFound(targets, input, used, r)
             else r == -1 && used == |input| && NoneUpTo(targets, input, |input|)
    ensures !Early(targets[j].str, input, used)
    ensures r == j ==> Ends(targets[j].str, input[..used]) && used > 0
    ensures r >= 0 ==> r < |targets| && used > 0
    ensures r < 0 || j < r ==> !Occurs(targets[j].str, input, used)
  {
    hide Ends;
  }

  lemma MatchedBelow(t: seq<byte>, s: seq<byte>, m: nat)
    requires IsLongest(t, s, m)
    ensures m < |t|
  {
  }
}
