/** The string operations that the HTTP head parser and the module resolver share. */
module Text {
  import opened Basics

  const CRLF: string := "\r\n"

  predicate MatchAt(s: string, pat: string, j: nat) {
    j + |pat| <= |s| && s[j..j + |pat|] == pat
  }

  /** `std::string::find`: the first occurrence at or after `from`. */
  function FindFrom(s: string, pat: string, from: nat): (r: Option<nat>)
    ensures r.Some? ==> from <= r.value && MatchAt(s, pat, r.value)
    ensures r.Some? ==> forall j :: from <= j < r.value ==> !MatchAt(s, pat, j)
    ensures r.None? ==> forall j :: from <= j ==> !MatchAt(s, pat, j)
    decreases |s| - from
  {
    if from + |pat| > |s| then None
    else if MatchAt(s, pat, from) then Some(from)
    else FindFrom(s, pat, from + 1)
  }

  /** A position that matches while no earlier one does is what `find` returns. */
  lemma FoundAt(s: string, pat: string, from: nat, k: nat)
    requires from <= k && MatchAt(s, pat, k)
    requires forall j :: from <= j < k ==> !MatchAt(s, pat, j)
    ensures FindFrom(s, pat, from) == Some(k)
  {
  }

  lemma NotFound(s: string, pat: string, from: nat)
    requires forall j :: from <= j ==> !MatchAt(s, pat, j)
    ensures FindFrom(s, pat, from) == None
  {
  }

  predicate IsUpper(c: char) { 'A' <= c <= 'Z' }

  function LowerChar(c: char): (r: char)
    ensures r != c <==> 'A' <= c <= 'Z'
    ensures r != c ==> 'a' <= r <= 'z' && r - 'a' == c - 'A'
  {
    if IsUpper(c) then (c as int + 32) as char else c
  }

  function Lower(s: string): (r: string)
    ensures |r| == |s|
    ensures forall i :: 0 <= i < |s| ==> r[i] == LowerChar(s[i])
  {
    seq(|s|, i requires 0 <= i < |s| => LowerChar(s[i]))
  }

  predicate IsOws(c: char) { c == ' ' || c == '\t' }

  predicate AllOws(s: string) {
    forall i :: 0 <= i < |s| ==> IsOws(s[i])
  }

  predicate IsTrimmed(s: string) {
    s == "" || (!IsOws(s[0]) && !IsOws(s[|s| - 1]))
  }

  function Trim(s: string): (r: string)
    ensures IsTrimmed(r)
    decreases |s|
  {
    if s == "" then ""
    else if IsOws(s[0]) then Trim(s[1..])
    else if IsOws(s[|s| - 1]) then Trim(s[..|s| - 1])
    else s
  }

  /** Trimming removes surrounding blanks and nothing else. */
  lemma {:induction false} TrimPadded(before: string, v: string, after: string)
    requires AllOws(before) && AllOws(after) && IsTrimmed(v)
    ensures Trim(before + v + after) == v
    decreases |before| + |after|
  {
    var s := before + v + after;
    if before != "" {
      assert s[0] == before[0];
      assert s[1..] == before[1..] + v + after;
      TrimPadded(before[1..], v, after);
    } else if after != "" {
      assert s == v + after;
      if v == "" {
        assert s[1..] == "" + v + after[1..];
        TrimPadded("", v, after[1..]);
      } else {
        assert s[|s| - 1] == after[|after| - 1];
        assert s[..|s| - 1] == before + v + after[..|after| - 1];
        TrimPadded(before, v, after[..|after| - 1]);
      }
    } else {
      assert s == v;
    }
  }

  /** What trimming removed was blank. */
  lemma {:induction false} TrimSplits(s: string) returns (before: string, after: string)
    ensures AllOws(before) && AllOws(after) && s == before + Trim(s) + after
    decreases |s|
  {
    if s == "" {
      before, after := "", "";
    } else if IsOws(s[0]) {
      var b, a := TrimSplits(s[1..]);
      before, after := [s[0]] + b, a;
      assert s == [s[0]] + s[1..] && before + Trim(s) + after == [s[0]] + (b + Trim(s) + a);
    } else if IsOws(s[|s| - 1]) {
      var b, a := TrimSplits(s[..|s| - 1]);
      before, after := b, a + [s[|s| - 1]];
      assert s == s[..|s| - 1] + [s[|s| - 1]] && before + Trim(s) + after == (b + Trim(s) + a) + [s[|s| - 1]];
    } else {
      before, after := "", "";
    }
  }

  lemma {:induction false} TrimFront(s: string, b: nat)
    requires b <= |s| && AllOws(s[..b])
    ensures Trim(s) == Trim(s[b..])
  {
    if b > 0 {
      assert IsOws(s[..b][0]);
      assert s[1..][..b - 1] == s[..b][1..];
      TrimFront(s[1..], b - 1);
      assert s[1..][b - 1..] == s[b..];
    } else {
      assert s[0..] == s;
    }
  }

  /** `trimOptionalWhitespace`: two index loops. */
  method TrimOptionalWhitespace(value: string) returns (r: string)
    ensures r == Trim(value)
  {
    var begin := 0;
    while begin < |value| && IsOws(value[begin])
      invariant begin <= |value| && AllOws(value[..begin])
    {
      begin := begin + 1;
    }
    TrimFront(value, begin);
    var end := |value|;
    assert value[begin..end] == value[begin..];
    while end > begin && IsOws(value[end - 1])
      invariant begin <= end <= |value|
      invariant Trim(value[begin..end]) == Trim(value)
      invariant begin < end ==> !IsOws(value[begin])
    {
      assert value[begin..end][..end - begin - 1] == value[begin..end - 1];
      end := end - 1;
    }
    r := value[begin..end];
  }
}
