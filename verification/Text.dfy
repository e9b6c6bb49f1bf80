/** Text scanning on a stuffer. Positions are offsets into the stuffer's contents. */
module Text {
  import opened Bytes
  import opened Stuffers

  /** The first position from i on that holds c, or the end. */
  function SkipTo(t: seq<byte>, i: nat, c: byte): (j: nat)
    requires i <= |t|
    ensures i <= j <= |t|
    decreases |t| - i
  {
    if i == |t| || t[i] == c then i else SkipTo(t, i + 1, c)
  }

  /** The position after at most `max` occurrences of c. */
  function SkipRun(t: seq<byte>, i: nat, c: byte, max: nat): (j: nat)
    requires i <= |t|
    ensures i <= j <= |t| && j <= i + max
    decreases max
  {
    if i < |t| && max > 0 && t[i] == c then SkipRun(t, i + 1, c, max - 1) else i
  }

  predicate IsSpace(c: byte) {
    c == 32 || c == 9 || c == 10 || c == 13
  }

  function SkipSpace(t: seq<byte>, i: nat): (j: nat)
    requires i <= |t|
    ensures i <= j <= |t|
    decreases |t| - i
  {
    if i < |t| && IsSpace(t[i]) then SkipSpace(t, i + 1) else i
  }

  /** What the scans stop at, and that they stop nowhere else. */
  lemma {:induction false} SkipToIff(t: seq<byte>, i: nat, c: byte, j: nat)
    requires i <= j <= |t|
    ensures SkipTo(t, i, c) == j <==> (j == |t| || t[j] == c) && forall k :: i <= k < j ==> t[k] != c
    decreases j - i
  {
    if i < j {
      SkipToIff(t, i + 1, c, j);
      assert t[i] == c || SkipTo(t, i, c) == SkipTo(t, i + 1, c);
    }
  }

  lemma {:induction false} SkipRunIff(t: seq<byte>, i: nat, c: byte, max: nat, j: nat)
    requires i <= j <= |t| && j <= i + max
    ensures SkipRun(t, i, c, max) == j <==>
      (j == |t| || j == i + max || t[j] != c) && forall k :: i <= k < j ==> t[k] == c
    decreases j - i
  {
    if i < j {
      SkipRunIff(t, i + 1, c, max - 1, j);
    }
  }

  lemma {:induction false} SkipSpaceIff(t: seq<byte>, i: nat, j: nat)
    requires i <= j <= |t|
    ensures SkipSpace(t, i) == j <==> (j == |t| || !IsSpace(t[j])) && forall k :: i <= k < j ==> IsSpace(t[k])
    decreases j - i
  {
    if i < j {
      SkipSpaceIff(t, i + 1, j);
    }
  }

  predicate StartsAt(t: seq<byte>, i: nat, word: seq<byte>) {
    i + |word| <= |t| && t[i..i + |word|] == word
  }

  method SkipToChar(s: Stuffer, target: byte)
    requires s.Valid()
    modifies s`read
    ensures s.Valid() && s.read == old(SkipTo(s.Contents(), s.read, target))
  {
    while s.write - s.read > 0
      invariant s.Valid() && SkipTo(s.Contents(), s.read, target) == old(SkipTo(s.Contents(), s.read, target))
      decreases s.write - s.read
    {
      if s.mem[s.read] == target {
        break;
      }
      s.read := s.read + 1;
    }
  }

  method SkipExpectedChar(s: Stuffer, expected: byte, min: nat, max: nat) returns (ok: bool)
    requires s.Valid()
    modifies s`read
    ensures s.Valid()
    ensures min <= max ==> s.read == old(SkipRun(s.Contents(), s.read, expected, max))
    ensures ok <==> min <= max && min <= s.read - old(s.read)
  {
    if min > max {
      return false;
    }
    var skip := 0;
    while s.read < s.write && skip < max
      invariant s.Valid() && 0 <= skip <= max && s.read == old(s.read) + skip
      invariant SkipRun(s.Contents(), s.read, expected, max - skip) == old(SkipRun(s.Contents(), s.read, expected, max))
      decreases s.write - s.read
    {
      if s.mem[s.read] == expected {
        s.read := s.read + 1;
        skip := skip + 1;
      } else {
        break;
      }
    }
    return skip >= min;
  }

  method SkipWhitespace(s: Stuffer)
    requires s.Valid()
    modifies s`read
    ensures s.Valid() && s.read == old(SkipSpace(s.Contents(), s.read))
  {
    while s.write - s.read > 0
      invariant s.Valid() && SkipSpace(s.Contents(), s.read) == old(SkipSpace(s.Contents(), s.read))
      decreases s.write - s.read
    {
      var c := s.mem[s.read];
      if IsSpace(c) {
        s.read := s.read + 1;
      } else {
        break;
      }
    }
  }

  method ReadExpectedStr(s: Stuffer, expected: seq<byte>) returns (ok: bool)
    requires s.Valid()
    modifies s`read
    ensures s.Valid()
    ensures ok <==> old(StartsAt(s.Contents(), s.read, expected))
    ensures s.read == if ok then old(s.read) + |expected| else old(s.read)
  {
    if s.write - s.read < |expected| || s.mem[s.read..s.read + |expected|] != expected {
      return false;
    }
    s.read := s.read + |expected|;
    return true;
  }

  method PeekCheckForStr(s: Stuffer, expected: seq<byte>) returns (ok: bool)
    requires s.Valid()
    modifies s`read
    ensures s.Valid() && s.read == old(s.read)
    ensures ok <==> StartsAt(s.Contents(), s.read, expected)
  {
    var origRead := s.read;
    ok := ReadExpectedStr(s, expected);
    s.read := origRead;
  }
}
