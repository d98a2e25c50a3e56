/** White space and line ends as Python reads them. */
module PythonText {
  /** `str.isspace`, which is also `\s` in a regular expression on text. */
  predicate IsSpace(c: char) {
    var n := c as int;
    || 0x09 <= n <= 0x0D || 0x1C <= n <= 0x20 || n == 0x85 || n == 0xA0 || n == 0x1680
    || 0x2000 <= n <= 0x200A || n == 0x2028 || n == 0x2029 || n == 0x202F || n == 0x205F || n == 0x3000
  }

  function StripLeft(s: string): string {
    if s != "" && IsSpace(s[0]) then StripLeft(s[1..]) else s
  }

  function StripRight(s: string): string {
    if s != "" && IsSpace(s[|s| - 1]) then StripRight(s[..|s| - 1]) else s
  }

  /** `s.strip()`. */
  function Strip(s: string): string {
    StripRight(StripLeft(s))
  }

  predicate Stripped(s: string) {
    s == "" || (!IsSpace(s[0]) && !IsSpace(s[|s| - 1]))
  }

  /** The part of a text before the first character that `stop` holds of. */
  function Until(s: string, stop: char -> bool): (n: nat)
    ensures n <= |s|
    ensures n < |s| ==> stop(s[n])
    ensures forall i :: 0 <= i < n ==> !stop(s[i])
  {
    if s == "" || stop(s[0]) then 0 else 1 + Until(s[1..], stop)
  }

  /** How much of a text its first character takes: a CR LF pair counts as one. */
  function FirstWidth(s: string): (n: nat)
    requires s != ""
    ensures 1 <= n <= |s|
  {
    if s[0] == '\r' && |s| > 1 && s[1] == '\n' then 2 else 1
  }

  /** What text mode makes of line ends when a file is read. */
  function UniversalNewlines(s: string): string
    decreases |s|
  {
    if s == "" then ""
    else [if s[0] == '\r' then '\n' else s[0]] + UniversalNewlines(s[FirstWidth(s)..])
  }

  predicate NoReturns(s: string) {
    forall i :: 0 <= i < |s| ==> s[i] != '\r'
  }

  /** Reading in two pieces, unless the cut is inside a CR LF pair. */
  lemma {:induction false} NewlinesConcat(s: string, t: string)
    requires s == "" || s[|s| - 1] != '\r' || t == "" || t[0] != '\n'
    ensures UniversalNewlines(s + t) == UniversalNewlines(s) + UniversalNewlines(t)
    decreases |s|
  {
    if s == "" {
      assert s + t == t;
    } else {
      var n := FirstWidth(s);
      assert (s + t)[0] == s[0] && FirstWidth(s + t) == n && (s + t)[n..] == s[n..] + t;
      NewlinesConcat(s[n..], t);
    }
  }

  /** Reading a text changes nothing exactly when there is no CR to change. */
  lemma {:induction false} NewlinesExactly(s: string)
    ensures UniversalNewlines(s) == s <==> NoReturns(s)
    decreases |s|
  {
    if s == "" {
    } else if s[0] == '\r' {
      assert UniversalNewlines(s)[0] == '\n';
      assert !NoReturns(s);
    } else {
      assert UniversalNewlines(s) == [s[0]] + UniversalNewlines(s[1..]) && s == [s[0]] + s[1..];
      assert UniversalNewlines(s)[1..] == UniversalNewlines(s[1..]);
      NewlinesExactly(s[1..]);
      NoReturnsSplits(s);
    }
  }

  /** No CR is left, and every CR and every CR LF has become one line feed. */
  lemma {:induction false} NewlinesMeaning(s: string, t: string)
    requires NoReturns(s)
    ensures NoReturns(UniversalNewlines(t))
    ensures UniversalNewlines(s + ("\r\n" + t)) == s + "\n" + UniversalNewlines(t)
    ensures t == "" || t[0] != '\n' ==> UniversalNewlines(s + ("\r" + t)) == s + "\n" + UniversalNewlines(t)
  {
    NoneLeft(t);
    NewlinesExactly(s);
    NewlinesConcat(s, "\r\n" + t);
    NewlinesConcat(s, "\r" + t);
    assert ("\r\n" + t)[2..] == t && ("\r" + t)[1..] == t;
    assert UniversalNewlines("\r\n" + t) == "\n" + UniversalNewlines(t);
    if t == "" || t[0] != '\n' {
      assert UniversalNewlines("\r" + t) == "\n" + UniversalNewlines(t);
    }
  }

  lemma {:induction false} NoneLeft(t: string)
    ensures NoReturns(UniversalNewlines(t))
    decreases |t|
  {
    if t == "" {
    } else {
      NoneLeft(t[FirstWidth(t)..]);
    }
  }

  lemma NoReturnsSplits(s: string)
    requires s != ""
    ensures NoReturns(s) <==> s[0] != '\r' && NoReturns(s[1..])
  {
    assert forall i :: 1 <= i < |s| ==> s[i] == s[1..][i - 1];
  }

  /** Its first and last characters count as white space when they did. */
  lemma {:induction false} NewlinesEnds(s: string)
    requires s != ""
    ensures var u := UniversalNewlines(s);
            u != "" && IsSpace(u[0]) == IsSpace(s[0]) && IsSpace(u[|u| - 1]) == IsSpace(s[|s| - 1])
    decreases |s|
  {
    var n := FirstWidth(s);
    var next := UniversalNewlines(s[n..]);
    var u := UniversalNewlines(s);
    assert u[1..] == next;
    if n == |s| {
      assert next == "" && |u| == 1;
    } else {
      NewlinesEnds(s[n..]);
      assert u[|u| - 1] == next[|next| - 1];
    }
  }

  /** Stripping takes white space off both ends and nothing else. */
  lemma StripExactly(s: string) returns (before: string, after: string)
    ensures s == before + Strip(s) + after && Stripped(Strip(s))
    ensures forall i :: 0 <= i < |before| ==> IsSpace(before[i])
    ensures forall i :: 0 <= i < |after| ==> IsSpace(after[i])
  {
    before := OffLeft(s);
    after := OffRight(StripLeft(s));
    LeftLeaves(s);
    RightKeepsFirst(StripLeft(s));
  }

  lemma {:induction false} OffLeft(s: string) returns (before: string)
    ensures s == before + StripLeft(s)
    ensures forall i :: 0 <= i < |before| ==> IsSpace(before[i])
  {
    if s == "" || !IsSpace(s[0]) {
      before := "";
    } else {
      var more := OffLeft(s[1..]);
      before := [s[0]] + more;
    }
  }

  lemma {:induction false} OffRight(s: string) returns (after: string)
    ensures s == StripRight(s) + after
    ensures forall i :: 0 <= i < |after| ==> IsSpace(after[i])
  {
    if s == "" || !IsSpace(s[|s| - 1]) {
      after := "";
    } else {
      var more := OffRight(s[..|s| - 1]);
      after := more + [s[|s| - 1]];
    }
  }

  lemma {:induction false} RightKeepsFirst(s: string)
    requires s == "" || !IsSpace(s[0])
    ensures Stripped(StripRight(s))
  {
    if s == "" || !IsSpace(s[|s| - 1]) {
    } else {
      RightKeepsFirst(s[..|s| - 1]);
    }
  }

  /** A text strips to nothing exactly when it is all white space. */
  lemma {:induction false} BlankIsAllSpace(s: string)
    ensures Strip(s) == "" <==> forall i :: 0 <= i < |s| ==> IsSpace(s[i])
  {
    LeftLeaves(s);
    var t := StripLeft(s);
    RightLeaves(t);
  }

  lemma {:induction false} LeftLeaves(s: string)
    ensures StripLeft(s) == "" <==> forall i :: 0 <= i < |s| ==> IsSpace(s[i])
    ensures StripLeft(s) != "" ==> !IsSpace(StripLeft(s)[0])
  {
    if s == "" || !IsSpace(s[0]) {
    } else {
      LeftLeaves(s[1..]);
      assert forall i :: 1 <= i < |s| ==> s[i] == s[1..][i - 1];
    }
  }

  lemma {:induction false} RightLeaves(s: string)
    ensures s != "" && !IsSpace(s[0]) ==> StripRight(s) != ""
    ensures s == "" ==> StripRight(s) == ""
  {
    if |s| <= 1 {
    } else {
      RightLeaves(s[..|s| - 1]);
    }
  }
}
