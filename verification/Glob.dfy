/** The greedy star matcher against the language of its patterns. */
module Glob {
  import opened Prelude

  /** The parts of a string between separators; always at least one. */
  function Split(s: string, sep: char): (parts: seq<string>)
    ensures parts != []
  {
    if s == [] then [""]
    else
      var rest := Split(s[1..], sep);
      if s[0] == sep then [""] + rest else [[s[0]] + rest[0]] + rest[1..]
  }

  predicate OccursAt(s: string, part: string, k: nat) {
    k + |part| <= |s| && s[k..k + |part|] == part
  }

  /** The leftmost occurrence of a part. */
  function Find(s: string, part: string): (k: Option<nat>)
    ensures k.Some? ==> OccursAt(s, part, k.value) && forall j: nat :: j < k.value ==> !OccursAt(s, part, j)
    ensures k.None? ==> forall j: nat :: !OccursAt(s, part, j)
  {
    FindFrom(s, part, 0)
  }

  function FindFrom(s: string, part: string, from: nat): (k: Option<nat>)
    requires from <= |s| + 1
    ensures k.Some? ==> OccursAt(s, part, k.value) && forall j: nat :: from <= j < k.value ==> !OccursAt(s, part, j)
    ensures k.None? ==> forall j: nat :: from <= j ==> !OccursAt(s, part, j)
    decreases |s| + 1 - from
  {
    if from > |s| then None
    else if OccursAt(s, part, from) then Some(from)
    else FindFrom(s, part, from + 1)
  }

  predicate EndsInStar(pattern: string) {
    pattern != [] && pattern[|pattern| - 1] == '*'
  }

  // ----- The matcher -----

  /** Takes each part at its leftmost occurrence; what is left after the last one. */
  function TakeParts(parts: seq<string>, value: string): Option<string> {
    if parts == [] then Some(value)
    else
      var k := Find(value, parts[0]);
      if k.None? then None else TakeParts(parts[1..], value[k.value + |parts[0]|..])
  }

  function Greedy(pattern: string, value: string): bool {
    var parts := Split(pattern, '*');
    parts[0] <= value
    && var left := TakeParts(parts[1..], value[|parts[0]|..]);
       left.Some? && (EndsInStar(pattern) || left.value == [])
  }

  /** The matching loop, part by part. */
  method WildcardMatches(pattern: string, value: string) returns (matches: bool)
    ensures matches == Greedy(pattern, value)
  {
    if pattern == "*" {
      StarMatchesAll(value);
      return true;
    }
    var parts := Split(pattern, '*');
    var remaining := value;
    var first := true;
    var i := 0;
    while i < |parts|
      invariant 0 <= i <= |parts| && (first <==> i == 0)
      invariant i == 0 ==> remaining == value
      invariant i > 0 ==> parts[0] <= value
      invariant i > 0 ==> TakeParts(parts[i..], remaining) == TakeParts(parts[1..], value[|parts[0]|..])
    {
      var part := parts[i];
      if part == [] {
        EmptyPartIsFree(remaining);
      } else if first {
        FirstPartHasNoStar(pattern);
        if !(part <= remaining) {
          return false;
        }
        remaining := remaining[|part|..];
      } else {
        var k := Find(remaining, part);
        if k.None? {
          return false;
        }
        remaining := remaining[k.value + |part|..];
      }
      first := false;
      i := i + 1;
      assert i > 1 ==> parts[i - 1..][1..] == parts[i..];
    }
    return EndsInStar(pattern) || remaining == [];
  }

  lemma EmptyPartIsFree(value: string)
    ensures Find(value, []) == Some(0) && value[0..] == value
  {
    assert OccursAt(value, [], 0);
  }

  lemma StarMatchesAll(value: string)
    ensures Greedy("*", value)
  {
    assert Split("", '*') == [""];
    assert "*"[1..] == "";
    assert Split("*", '*') == [""] + [""];
    EmptyPartIsFree(value);
    assert [""] + [""] == ["", ""] && ["", ""][1..] == [""];
  }

  lemma FirstPartHasNoStar(pattern: string)
    ensures Split(pattern, '*')[0] != [] ==> pattern != [] && pattern[0] != '*'
  {
  }

  // ----- The language -----

  /** A star stands for any string, any other character for itself. */
  ghost predicate InLanguage(pattern: string, value: string)
    decreases pattern
  {
    if pattern == [] then value == []
    else if pattern[0] == '*' then exists k :: 0 <= k <= |value| && InLanguage(pattern[1..], value[k..])
    else value != [] && value[0] == pattern[0] && InLanguage(pattern[1..], value[1..])
  }

  /** Parts in order, with anything before each. */
  ghost predicate Embeds(parts: seq<string>, value: string)
    decreases parts
  {
    if parts == [] then value == []
    else exists k: nat :: OccursAt(value, parts[0], k) && Embeds(parts[1..], value[k + |parts[0]|..])
  }

  /** The first part occurs at `k` and the others embed in what follows it. */
  ghost predicate EmbedsAt(parts: seq<string>, value: string, k: nat)
    requires parts != []
  {
    OccursAt(value, parts[0], k) && Embeds(parts[1..], value[k + |parts[0]|..])
  }

  lemma EmbedsSomewhere(parts: seq<string>, value: string)
    requires parts != []
    ensures Embeds(parts, value) <==> exists k: nat :: EmbedsAt(parts, value, k)
  {
    if Embeds(parts, value) {
      var k: nat :| OccursAt(value, parts[0], k) && Embeds(parts[1..], value[k + |parts[0]|..]);
      assert EmbedsAt(parts, value, k);
    }
  }

  lemma StarEmbeds(pattern: string, value: string, rest: seq<string>)
    requires pattern != [] && pattern[0] == '*' && rest != []
    requires forall k: nat :: k <= |value| ==> (InLanguage(pattern[1..], value[k..]) <==> EmbedsAt(rest, value, k))
    ensures InLanguage(pattern, value) <==> Embeds(rest, value)
  {
    hide Embeds;
    EmbedsSomewhere(rest, value);
    if Embeds(rest, value) {
      var k: nat :| EmbedsAt(rest, value, k);
      assert InLanguage(pattern[1..], value[k..]);
    }
    if InLanguage(pattern, value) {
      var k :| 0 <= k <= |value| && InLanguage(pattern[1..], value[k..]);
      assert EmbedsAt(rest, value, k);
    }
  }

  /** The language of a pattern, by the parts between its stars. */
  lemma {:induction false} LanguageByParts(pattern: string, value: string)
    ensures var parts := Split(pattern, '*');
            InLanguage(pattern, value) <==> parts[0] <= value && Embeds(parts[1..], value[|parts[0]|..])
    decreases pattern
  {
    if pattern != [] {
      var rest := Split(pattern[1..], '*');
      if pattern[0] == '*' {
        hide InLanguage, Embeds;
        forall k: nat | k <= |value|
          ensures InLanguage(pattern[1..], value[k..]) <==> EmbedsAt(rest, value, k)
        {
          LanguageByParts(pattern[1..], value[k..]);
          PrefixOfSuffix(value, rest[0], k);
        }
        StarEmbeds(pattern, value, rest);
        assert Split(pattern, '*')[1..] == rest;
        assert value[0..] == value;
      } else if value != [] {
        hide Embeds;
        LanguageByParts(pattern[1..], value[1..]);
        assert Split(pattern, '*') == [[pattern[0]] + rest[0]] + rest[1..];
        PrefixByHead(value, pattern[0], rest[0]);
      }
    }
  }

  lemma PrefixOfSuffix(value: string, part: string, k: nat)
    requires k <= |value|
    ensures part <= value[k..] <==> OccursAt(value, part, k)
    ensures OccursAt(value, part, k) ==> value[k..][|part|..] == value[k + |part|..]
  {
    if k + |part| <= |value| {
      assert value[k..][..|part|] == value[k..k + |part|];
    }
  }

  lemma PrefixByHead(value: string, c: char, part: string)
    requires value != []
    ensures [c] + part <= value <==> value[0] == c && part <= value[1..]
    ensures [c] + part <= value ==> value[|[c] + part|..] == value[1..][|part|..]
  {
    assert value == [value[0]] + value[1..];
    if [c] + part <= value {
      assert value[1..][..|part|] == value[..|part| + 1][1..];
    }
  }

  lemma OccursInSlice(value: string, start: nat, end: nat, part: string, k: nat)
    requires start <= end <= |value| && OccursAt(value[start..end], part, k)
    ensures start + k + |part| <= end && OccursAt(value, part, start + k)
    ensures value[start..end][k + |part|..] == value[start + k + |part|..end]
  {
    var inner := value[start..end];
    assert |inner| == end - start;
    forall i | 0 <= i < |part| ensures value[start + k..start + k + |part|][i] == part[i] {
      assert inner[k..k + |part|][i] == inner[k + i] == value[start + k + i];
    }
    assert value[start + k..start + k + |part|] == part;
  }

  /** Leftmost is best: if the parts embed anywhere up to `end`, taking them greedily
      succeeds and stops no later. */
  lemma {:induction false} LeftmostIsBest(parts: seq<string>, value: string, start: nat, end: nat)
    requires start <= end <= |value| && Embeds(parts, value[start..end])
    ensures TakeParts(parts, value).Some? && |TakeParts(parts, value).value| >= |value| - end
    decreases parts
  {
    if parts != [] {
      hide Embeds, OccursAt;
      var part := parts[0];
      EmbedsSomewhere(parts, value[start..end]);
      var k: nat :| EmbedsAt(parts, value[start..end], k);
      OccursInSlice(value, start, end, part, k);
      var f := Find(value, part).value;
      var rest := value[f + |part|..];
      var from, to := start + k - f, end - f - |part|;
      SliceOfSuffix(value, f + |part|, from, to);
      LeftmostIsBest(parts[1..], rest, from, to);
    }
  }

  lemma SliceOfSuffix(value: string, cut: nat, from: nat, to: nat)
    requires cut <= |value| && from <= to <= |value| - cut
    ensures value[cut..][from..to] == value[cut + from..cut + to]
  {
  }

  lemma {:induction false} TakenPartsEmbed(parts: seq<string>, value: string)
    requires TakeParts(parts, value).Some?
    requires TakeParts(parts, value).value == [] || (parts != [] && parts[|parts| - 1] == [])
    ensures Embeds(parts, value)
    decreases parts
  {
    if parts != [] {
      var part := parts[0];
      var f := Find(value, part).value;
      if |parts| == 1 && part == [] {
        assert value[|value| + |part|..] == [];
        assert EmbedsAt(parts, value, |value|);
        EmbedsSomewhere(parts, value);
      } else {
        TakenPartsEmbed(parts[1..], value[f + |part|..]);
        assert EmbedsAt(parts, value, f);
        EmbedsSomewhere(parts, value);
      }
    }
  }

  lemma {:induction false} LastPart(pattern: string)
    ensures var parts := Split(pattern, '*');
            (EndsInStar(pattern) ==> |parts| > 1 && parts[|parts| - 1] == [])
            && ('*' in pattern && !EndsInStar(pattern) ==> |parts| > 1 && parts[|parts| - 1] != [])
            && ('*' !in pattern ==> parts == [pattern])
  {
    if pattern != [] {
      LastPart(pattern[1..]);
      if '*' in pattern && pattern[0] != '*' {
        assert '*' in pattern[1..];
      }
      if |pattern| > 1 {
        assert pattern[1..][|pattern| - 2] == pattern[|pattern| - 1];
      }
      if '*' !in pattern {
        assert [pattern[0]] + pattern[1..] == pattern;
      }
    }
  }

  /** Whatever matches is in the language. */
  lemma GreedyIsSound(pattern: string, value: string)
    requires Greedy(pattern, value)
    ensures InLanguage(pattern, value)
  {
    LanguageByParts(pattern, value);
    LastPart(pattern);
    var parts := Split(pattern, '*');
    TakenPartsEmbed(parts[1..], value[|parts[0]|..]);
  }

  lemma GreedyIsComplete(pattern: string, value: string)
    requires InLanguage(pattern, value) && ('*' !in pattern || EndsInStar(pattern))
    ensures Greedy(pattern, value)
  {
    LanguageByParts(pattern, value);
    LastPart(pattern);
    var parts := Split(pattern, '*');
    var rest := value[|parts[0]|..];
    assert rest[0..|rest|] == rest;
    LeftmostIsBest(parts[1..], rest, 0, |rest|);
  }

  /** The shortest string the parts embed in: every star empty. */
  function Joined(parts: seq<string>): string {
    if parts == [] then [] else parts[0] + Joined(parts[1..])
  }

  lemma {:induction false} JoinedEmbeds(parts: seq<string>)
    ensures Embeds(parts, Joined(parts))
  {
    if parts != [] {
      JoinedEmbeds(parts[1..]);
      assert Joined(parts)[0 + |parts[0]|..] == Joined(parts[1..]);
      assert EmbedsAt(parts, Joined(parts), 0);
      EmbedsSomewhere(parts, Joined(parts));
    }
  }

  lemma {:induction false} RepeatedLastEmbeds(parts: seq<string>)
    requires parts != []
    ensures Embeds(parts, Joined(parts) + parts[|parts| - 1])
  {
    hide OccursAt;
    var last := parts[|parts| - 1];
    var value := Joined(parts) + last;
    if |parts| == 1 {
      LastTwice(last);
      assert parts == [last] && Joined(parts) == last + Joined([]);
      assert last + [] == last;
    } else {
      RepeatedLastEmbeds(parts[1..]);
      FirstThen(parts[0], Joined(parts[1..]) + last);
      assert value == parts[0] + (Joined(parts[1..]) + last);
      assert EmbedsAt(parts, value, 0);
      EmbedsSomewhere(parts, value);
    }
  }

  lemma FirstThen(first: string, rest: string)
    ensures OccursAt(first + rest, first, 0) && (first + rest)[0 + |first|..] == rest
  {
  }

  lemma LastTwice(last: string)
    ensures Embeds([last], last + last)
  {
    assert (last + last)[|last|..] == last;
    assert OccursAt(last + last, last, |last|);
    assert (last + last)[|last| + |last|..] == [];
    assert EmbedsAt([last], last + last, |last|);
    EmbedsSomewhere([last], last + last);
  }

  /** A pattern with a star and something after its last star misses part of its language. */
  lemma GreedyMisses(pattern: string)
    requires '*' in pattern && !EndsInStar(pattern)
    ensures exists value :: InLanguage(pattern, value) && !Greedy(pattern, value)
  {
    LastPart(pattern);
    var parts := Split(pattern, '*');
    var last := parts[|parts| - 1];
    var tail := Joined(parts[1..]) + last;
    var value := parts[0] + tail;
    assert value[|parts[0]|..] == tail;
    RepeatedLastEmbeds(parts[1..]);
    JoinedEmbeds(parts[1..]);
    var end := |Joined(parts[1..])|;
    assert tail[0..end] == Joined(parts[1..]);
    LeftmostIsBest(parts[1..], tail, 0, end);
    LanguageByParts(pattern, value);
    assert InLanguage(pattern, value) && !Greedy(pattern, value);
  }

  /** The matcher decides its pattern's language exactly when the pattern has no star or ends in one. */
  lemma GreedyDecidesExactlyWhen(pattern: string)
    ensures (forall value :: Greedy(pattern, value) <==> InLanguage(pattern, value))
      <==> ('*' !in pattern || EndsInStar(pattern))
  {
    forall value | Greedy(pattern, value) ensures InLanguage(pattern, value) {
      GreedyIsSound(pattern, value);
    }
    if '*' !in pattern || EndsInStar(pattern) {
      forall value | InLanguage(pattern, value) ensures Greedy(pattern, value) {
        GreedyIsComplete(pattern, value);
      }
    } else {
      GreedyMisses(pattern);
    }
  }
}
