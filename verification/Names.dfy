// Turning an engineering symbol into a tag name that is valid and not yet taken.
module Names {
  import opened Decimal
  import opened Addressing

  const MAX_NAME_LENGTH: int := 64

  predicate IsAlnum(c: char) {
    'a' <= c <= 'z' || 'A' <= c <= 'Z' || IsDigit(c)
  }

  predicate IsAllowed(c: char) {
    IsAlnum(c) || c in {' ', '.', '_', '-'}
  }

  predicate AllAllowed(s: string) {
    forall i :: 0 <= i < |s| ==> IsAllowed(s[i])
  }

  // The rule the tag table enforces.
  predicate NamePattern(s: string) {
    1 <= |s| <= MAX_NAME_LENGTH && IsAlnum(s[0]) && AllAllowed(s)
  }

  function LowerChar(c: char): char {
    if 'A' <= c <= 'Z' then 'a' + (c - 'A') else c
  }

  function Lower(s: string): (r: string)
    ensures |r| == |s|
    ensures forall i :: 0 <= i < |s| ==> r[i] == LowerChar(s[i])
  {
    seq(|s|, i requires 0 <= i < |s| => LowerChar(s[i]))
  }

  // ---------------------------------------------------------------- cleaning

  function StripQuotes(s: string): string
    decreases |s|
  {
    if s != "" && s[0] == '"' then StripQuotes(s[1..])
    else if s != "" && s[|s| - 1] == '"' then StripQuotes(s[..|s| - 1])
    else s
  }

  function Replace(s: string): (r: string)
    ensures |r| == |s| && AllAllowed(r)
  {
    seq(|s|, i requires 0 <= i < |s| => if IsAllowed(s[i]) then s[i] else '_')
  }

  function UnderscoreRun(s: string): (n: nat)
    ensures n <= |s|
    ensures forall i :: 0 <= i < n ==> s[i] == '_'
    ensures n < |s| ==> s[n] != '_'
  {
    if s != "" && s[0] == '_' then 1 + UnderscoreRun(s[1..]) else 0
  }

  // Runs of three or more underscores become two.
  function Collapse(s: string): (r: string)
    requires AllAllowed(s)
    ensures AllAllowed(r)
    decreases |s|
  {
    if s == "" then ""
    else
      var n := UnderscoreRun(s);
      if n == 0 then [s[0]] + Collapse(s[1..])
      else (if n >= 3 then "__" else s[..n]) + Collapse(s[n..])
  }

  // s[:n] with a Python bound, which counts from the end when negative.
  function SliceTo(s: string, n: int): (r: string)
    ensures r <= s
    ensures n >= 0 ==> |r| <= n
  {
    if n >= |s| then s
    else if n >= 0 then s[..n]
    else if |s| + n >= 0 then s[..|s| + n]
    else ""
  }

  function CleanName(raw: string): string {
    var text := Strip(Collapse(Replace(Strip(StripQuotes(Strip(raw))))));
    var started := if text != "" && !IsAlnum(text[0]) then "T" + text else text;
    var cut := Strip(SliceTo(started, MAX_NAME_LENGTH));
    if cut == "" then "Tag" else cut
  }

  lemma {:induction false} DropTrailingSpacesIsPrefix(s: string)
    ensures DropTrailingSpaces(s) <= s
    ensures s != "" && !IsSpace(s[0]) ==> DropTrailingSpaces(s) != ""
    decreases |s|
  {
    if s != "" && IsSpace(s[|s| - 1]) {
      DropTrailingSpacesIsPrefix(s[..|s| - 1]);
    }
  }

  lemma {:induction false} SkipSpacesKeepsAllowed(s: string)
    requires AllAllowed(s)
    ensures AllAllowed(SkipSpaces(s))
    decreases |s|
  {
    if s != "" && IsSpace(s[0]) {
      SkipSpacesKeepsAllowed(s[1..]);
    }
  }

  lemma {:induction false} CleanNameIsValid(raw: string)
    ensures NamePattern(CleanName(raw))
  {
    var replaced := Replace(Strip(StripQuotes(Strip(raw))));
    var collapsed := Collapse(replaced);
    SkipSpacesKeepsAllowed(collapsed);
    DropTrailingSpacesIsPrefix(SkipSpaces(collapsed));
    var text := Strip(collapsed);
    var started := if text != "" && !IsAlnum(text[0]) then "T" + text else text;
    var sliced := SliceTo(started, MAX_NAME_LENGTH);
    if text != "" {
      assert IsAlnum(sliced[0]);
      assert SkipSpaces(sliced) == sliced;
      DropTrailingSpacesIsPrefix(sliced);
    }
  }

  // ---------------------------------------------------------------- the numbered candidates

  function Tail(k: nat): string { "_" + ToDecimal(k) }

  function Candidate(text: string, k: nat): string {
    SliceTo(text, MAX_NAME_LENGTH - |Tail(k)|) + Tail(k)
  }

  lemma {:induction false} LowerOfTail(text: string, k: nat, i: nat)
    requires i < |Tail(k)|
    ensures var low := Lower(Candidate(text, k));
            |low| >= |Tail(k)| && low[|low| - |Tail(k)| + i] == Tail(k)[i]
  {
    var c := Candidate(text, k);
    assert c[|c| - |Tail(k)| + i] == Tail(k)[i];
  }

  // Case-insensitively, too, different suffixes make different candidates.
  lemma {:induction false} CandidatesDiffer(text: string, j: nat, k: nat)
    requires j != k
    ensures Lower(Candidate(text, j)) != Lower(Candidate(text, k))
  {
    if |ToDecimal(j)| > |ToDecimal(k)| {
      ShorterNumberDiffers(text, k, j);
    } else if |ToDecimal(j)| < |ToDecimal(k)| {
      ShorterNumberDiffers(text, j, k);
    } else if Lower(Candidate(text, j)) == Lower(Candidate(text, k)) {
      forall i | 0 <= i < |ToDecimal(j)|
        ensures ToDecimal(j)[i] == ToDecimal(k)[i]
      {
        LowerOfTail(text, j, i + 1);
        LowerOfTail(text, k, i + 1);
      }
      assert ToDecimal(j) == ToDecimal(k);
      DecimalRoundTrip(j);
      DecimalRoundTrip(k);
    }
  }

  lemma {:induction false} ShorterNumberDiffers(text: string, j: nat, k: nat)
    requires |ToDecimal(j)| < |ToDecimal(k)|
    ensures Lower(Candidate(text, j)) != Lower(Candidate(text, k))
  {
    // Counted from the end, the underscore of one falls on a digit of the other.
    var i := |Tail(k)| - |Tail(j)|;
    LowerOfTail(text, j, 0);
    LowerOfTail(text, k, i);
    assert IsDigit(Tail(k)[i]);
  }

  lemma {:induction false} CandidateIsValid(text: string, k: nat, digits: nat)
    requires NamePattern(text) && 1 <= digits <= 62 && k < Pow10(digits)
    ensures NamePattern(Candidate(text, k))
  {
    DecimalLength(k, digits);
    var head := SliceTo(text, MAX_NAME_LENGTH - |Tail(k)|);
    assert head != "" && head[0] == text[0];
  }

  lemma {:induction false} SubsetIsNoLarger<T>(a: set<T>, b: set<T>)
    requires a <= b
    ensures |a| <= |b|
  {
    if a != {} {
      var x :| x in a;
      SubsetIsNoLarger(a - {x}, b - {x});
    }
  }

  predicate AllTaken(text: string, taken: set<string>, k: nat) {
    forall j :: 2 <= j < k ==> Lower(Candidate(text, j)) in taken
  }

  // The cleaned name itself if it is free, otherwise its first free numbered candidate.
  predicate IsFirstFree(name: string, text: string, taken: set<string>) {
    && Lower(name) !in taken
    && (Lower(text) !in taken ==> name == text)
    && (Lower(text) in taken ==>
          exists k :: 2 <= k <= |taken| + 2 && name == Candidate(text, k) && AllTaken(text, taken, k))
  }

  lemma {:induction false} NumberedCandidates(text: string, k: nat) returns (names: set<string>)
    requires k >= 2
    ensures |names| == k - 2
    ensures forall c :: c in names ==> exists j :: 2 <= j < k && c == Lower(Candidate(text, j))
  {
    if k == 2 {
      names := {};
    } else {
      var fewer := NumberedCandidates(text, k - 1);
      var last := Lower(Candidate(text, k - 1));
      forall c | c in fewer
        ensures c != last
      {
        var j :| 2 <= j < k - 1 && c == Lower(Candidate(text, j));
        CandidatesDiffer(text, j, k - 1);
      }
      names := fewer + {last};
    }
  }

  // Pigeonhole: each refused candidate is another member of `taken`.
  lemma {:induction false} RefusalsAreBounded(text: string, taken: set<string>, k: nat)
    requires k >= 2 && AllTaken(text, taken, k)
    ensures k - 2 <= |taken|
  {
    var names := NumberedCandidates(text, k);
    SubsetIsNoLarger(names, taken);
  }

  // At most |taken| + 1 numbered candidates are tried. A valid name comes out unless more names
  // are taken than a 62-digit number counts.
  method SanitizeName(raw: string, taken: set<string>) returns (name: string, nowTaken: set<string>)
    ensures IsFirstFree(name, CleanName(raw), taken)
    ensures nowTaken == taken + {Lower(name)}
    ensures forall digits :: 1 <= digits <= 62 && |taken| + 2 < Pow10(digits) ==> NamePattern(name)
  {
    var text := CleanName(raw);
    CleanNameIsValid(raw);
    name := text;
    var suffix: nat := 2;
    while Lower(name) in taken
      invariant 2 <= suffix <= |taken| + 3
      invariant name == if suffix == 2 then text else Candidate(text, suffix - 1)
      invariant suffix > 2 ==> Lower(text) in taken
      invariant AllTaken(text, taken, suffix - 1)
      decreases |taken| + 3 - suffix
    {
      RefusalsAreBounded(text, taken, suffix);
      name := Candidate(text, suffix);
      suffix := suffix + 1;
    }
    nowTaken := taken + {Lower(name)};
    if suffix > 2 {
      forall digits | 1 <= digits <= 62 && |taken| + 2 < Pow10(digits)
        ensures NamePattern(name)
      {
        CandidateIsValid(text, suffix - 1, digits);
      }
    }
  }
}
