// What cleaning does to a name, and when names count as the same.
module NameLaws {
  import opened Decimal
  import opened Addressing
  import opened AddressMeaning
  import opened Names

  // Names are the same in any case exactly when each character is the other's, or its capital or
  // small letter.
  lemma {:induction false} SameInAnyCaseIff(a: string, b: string)
    ensures Lower(a) == Lower(b) <==> CaseVariant(a, b)
  {
    if Lower(a) == Lower(b) {
      forall i | 0 <= i < |a|
        ensures SameOrOtherCase(a[i], b[i])
      {
        assert Lower(a)[i] == Lower(b)[i];
      }
    }
  }

  // ---------------------------------------------------------------- cleaning

  // No three underscores in a row.
  predicate NoTriple(s: string) {
    forall i :: 0 <= i < |s| - 2 ==> !(s[i] == '_' && s[i + 1] == '_' && s[i + 2] == '_')
  }

  predicate StartsOther(s: string) {
    s == "" || s[0] != '_'
  }

  lemma {:induction false} NoTripleConcat(a: string, b: string)
    requires NoTriple(a) && NoTriple(b) && StartsOther(b)
    ensures NoTriple(a + b)
  {
    var s := a + b;
    forall i | 0 <= i < |s| - 2
      ensures !(s[i] == '_' && s[i + 1] == '_' && s[i + 2] == '_')
    {
      if i + 2 < |a| {
        assert s[i] == a[i] && s[i + 1] == a[i + 1] && s[i + 2] == a[i + 2];
      } else if i >= |a| {
        assert s[i] == b[i - |a|] && s[i + 1] == b[i + 1 - |a|] && s[i + 2] == b[i + 2 - |a|];
      } else {
        assert s[|a|] == b[0];
      }
    }
  }

  lemma {:induction false} StartedByOther(c: char, text: string)
    requires NoTriple(text) && c != '_'
    ensures NoTriple([c] + text)
  {
    var s := [c] + text;
    forall i | 0 <= i < |s| - 2
      ensures !(s[i] == '_' && s[i + 1] == '_' && s[i + 2] == '_')
    {
      if i > 0 {
        assert s[i] == text[i - 1] && s[i + 1] == text[i] && s[i + 2] == text[i + 1];
      }
    }
  }

  lemma {:induction false} CollapseLeavesNoTriple(s: string)
    requires AllAllowed(s)
    ensures NoTriple(Collapse(s)) && (StartsOther(s) ==> StartsOther(Collapse(s)))
    decreases |s|
  {
    if s != "" {
      var n := UnderscoreRun(s);
      if n == 0 {
        var rest := Collapse(s[1..]);
        CollapseLeavesNoTriple(s[1..]);
        StartedByOther(s[0], rest);
      } else {
        CollapseLeavesNoTriple(s[n..]);
        NoTripleConcat(if n >= 3 then "__" else s[..n], Collapse(s[n..]));
      }
    }
  }

  lemma {:induction false} NoTripleSlice(s: string, low: nat, high: nat)
    requires NoTriple(s) && low <= high <= |s|
    ensures NoTriple(s[low..high])
  {
    var t := s[low..high];
    forall i | 0 <= i < |t| - 2
      ensures !(t[i] == '_' && t[i + 1] == '_' && t[i + 2] == '_')
    {
      assert t[i] == s[low + i] && t[i + 1] == s[low + i + 1] && t[i + 2] == s[low + i + 2];
    }
  }

  lemma {:induction false} CollapseKeeps(s: string)
    requires AllAllowed(s) && NoTriple(s)
    ensures Collapse(s) == s
    decreases |s|
  {
    if s != "" {
      var n := UnderscoreRun(s);
      if n == 0 {
        NoTripleSlice(s, 1, |s|);
        CollapseKeeps(s[1..]);
        assert s[1..|s|] == s[1..];
      } else {
        assert |s| > 2 ==> !(s[0] == '_' && s[1] == '_' && s[2] == '_');
        NoTripleSlice(s, n, |s|);
        assert s[n..|s|] == s[n..];
        CollapseKeeps(s[n..]);
      }
    }
  }

  // A name that starts with a letter or digit and ends in a character that can stay keeps its
  // length and every such character; the others become underscores.
  lemma {:induction false} CleaningReplacesOnly(raw: string)
    requires 1 <= |raw| <= MAX_NAME_LENGTH && IsAlnum(raw[0])
    requires IsAllowed(raw[|raw| - 1]) && raw[|raw| - 1] != ' ' && NoTriple(Replace(raw))
    ensures |CleanName(raw)| == |raw|
    ensures forall i :: 0 <= i < |raw| ==> CleanName(raw)[i] == if IsAllowed(raw[i]) then raw[i] else '_'
  {
    assert Strip(raw) == raw && StripQuotes(raw) == raw;
    var replaced := Replace(raw);
    CollapseKeeps(replaced);
    assert replaced[0] == raw[0] && replaced[|raw| - 1] == raw[|raw| - 1];
    assert Strip(replaced) == replaced;
  }

  // Cleaning leaves a name as it is exactly when the tag table accepts it, it does not end in a
  // space, and it has no three underscores in a row.
  lemma {:induction false} CleaningChangesNothingIff(raw: string)
    ensures CleanName(raw) == raw <==> NamePattern(raw) && raw[|raw| - 1] != ' ' && NoTriple(raw)
  {
    CleanedIsClean(raw);
    if NamePattern(raw) && raw[|raw| - 1] != ' ' && NoTriple(raw) {
      assert Replace(raw) == raw;
      CleaningReplacesOnly(raw);
    }
  }

  lemma {:induction false} StrippedTail(s: string)
    ensures DropTrailingSpaces(s) != "" ==> !IsSpace(DropTrailingSpaces(s)[|DropTrailingSpaces(s)| - 1])
    decreases |s|
  {
    if s != "" && IsSpace(s[|s| - 1]) {
      StrippedTail(s[..|s| - 1]);
    }
  }

  lemma {:induction false} StripIsSlice(s: string) returns (low: nat, high: nat)
    ensures low <= high <= |s| && Strip(s) == s[low..high]
    decreases |s|
  {
    if s != "" && IsSpace(s[0]) {
      low, high := StripIsSlice(s[1..]);
      assert s[1..][low..high] == s[low + 1..high + 1];
      low, high := low + 1, high + 1;
    } else {
      DropTrailingSpacesIsPrefix(s);
      low, high := 0, |DropTrailingSpaces(s)|;
    }
  }

  lemma {:induction false} StripLeavesNoTriple(s: string)
    requires NoTriple(s)
    ensures NoTriple(Strip(s))
  {
    var low, high := StripIsSlice(s);
    NoTripleSlice(s, low, high);
  }

  lemma {:induction false} CutLeavesNoTriple(s: string)
    requires NoTriple(s)
    ensures var cut := Strip(SliceTo(s, MAX_NAME_LENGTH)); NoTriple(cut) && (cut != "" ==> !IsSpace(cut[|cut| - 1]))
  {
    var sliced := SliceTo(s, MAX_NAME_LENGTH);
    NoTripleSlice(s, 0, |sliced|);
    assert s[0..|sliced|] == sliced;
    StripLeavesNoTriple(sliced);
    StrippedTail(SkipSpaces(sliced));
  }

  lemma {:induction false} CutNameIsClean(text: string, name: string)
    requires NoTriple(text)
    requires var started := if text != "" && !IsAlnum(text[0]) then "T" + text else text;
             var cut := Strip(SliceTo(started, MAX_NAME_LENGTH));
             name == if cut == "" then "Tag" else cut
    ensures NoTriple(name) && name[|name| - 1] != ' '
  {
    StartedByOther('T', text);
    CutLeavesNoTriple(if text != "" && !IsAlnum(text[0]) then "T" + text else text);
  }

  // So a cleaned name is clean, and cleaning it again changes nothing.
  lemma {:induction false} CleanedIsClean(raw: string)
    ensures var name := CleanName(raw); NamePattern(name) && name[|name| - 1] != ' ' && NoTriple(name)
  {
    CleanNameIsValid(raw);
    var replaced := Replace(Strip(StripQuotes(Strip(raw))));
    CollapseLeavesNoTriple(replaced);
    StripLeavesNoTriple(Collapse(replaced));
    CutNameIsClean(Strip(Collapse(replaced)), CleanName(raw));
  }

  lemma {:induction false} CleaningTwice(raw: string)
    ensures CleanName(CleanName(raw)) == CleanName(raw)
  {
    CleanedIsClean(raw);
    CleaningChangesNothingIff(CleanName(raw));
  }
}
