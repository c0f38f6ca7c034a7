/** Cutting strings: `split` by a character, which reads lines, and `split` by a string. */
module Utils {
  /** `%` of the source, which truncates towards zero: the remainder has the sign of the dividend. */
  function Remainder(a: int, b: nat): int
    requires b > 0
  {
    if a >= 0 then a % b else -((-a) % b)
  }

  // ---- By a character ----

  /** Position of the first `c`, or the length. */
  function Find(s: string, c: char): (p: nat)
    ensures p <= |s| && c !in s[..p] && (p < |s| ==> s[p] == c)
  {
    if s == "" || s[0] == c then 0
    else
      assert s[1..][..Find(s[1..], c)] == s[..Find(s[1..], c) + 1][1..];
      Find(s[1..], c) + 1
  }

  lemma {:induction false} FindIs(s: string, c: char, p: nat)
    requires p <= |s| && c !in s[..p] && (p < |s| ==> s[p] == c)
    ensures Find(s, c) == p
  {
    if p > 0 {
      assert s[0] in s[..p] && s[1..][..p - 1] == s[..p][1..];
      FindIs(s[1..], c, p - 1);
    }
  }

  /** The lines of `data`: one between every two delimiters. An empty last line is no line. */
  function Lines(data: string, delimiter: char): seq<string>
    decreases |data|
  {
    if data == "" then []
    else
      var p := Find(data, delimiter);
      [data[..p]] + if p < |data| then Lines(data[p + 1..], delimiter) else []
  }

  method Split(data: string, delimiter: char) returns (tokens: seq<string>)
    ensures tokens == Lines(data, delimiter)
  {
    tokens := [];
    var stream := data;
    while stream != ""
      invariant tokens + Lines(stream, delimiter) == Lines(data, delimiter)
      decreases |stream|
    {
      var p := Find(stream, delimiter);
      var segment := stream[..p];
      ghost var rest := if p < |stream| then Lines(stream[p + 1..], delimiter) else [];
      assert tokens + ([segment] + rest) == (tokens + [segment]) + rest;
      tokens := tokens + [segment];
      stream := if p < |stream| then stream[p + 1..] else "";
    }
  }

  /** Lines are free of the delimiter, and made of the characters of the data. */
  lemma {:induction false} LinesAreClean(data: string, delimiter: char)
    ensures forall line, x :: line in Lines(data, delimiter) && x in line ==> x in data && x != delimiter
    decreases |data|
  {
    if data != "" {
      var p := Find(data, delimiter);
      forall x | x in data[..p] ensures x in data && x != delimiter {
        var i :| 0 <= i < p && data[i] == x;
        assert data[..p][i] == x;
      }
      if p < |data| {
        LinesAreClean(data[p + 1..], delimiter);
        forall x | x in data[p + 1..] ensures x in data {
        }
      }
    }
  }

  /** The parts with a delimiter after each. */
  function Ended(parts: seq<string>, delimiter: char): string {
    if parts == [] then "" else parts[0] + [delimiter] + Ended(parts[1..], delimiter)
  }

  /** The parts with a delimiter between them. */
  function Joined(parts: seq<string>, delimiter: char): (r: string)
    requires parts != []
  {
    if |parts| == 1 then parts[0] else parts[0] + [delimiter] + Joined(parts[1..], delimiter)
  }

  lemma {:induction false} EndedIsJoined(parts: seq<string>, delimiter: char)
    requires parts != []
    ensures Ended(parts, delimiter) == Joined(parts, delimiter) + [delimiter]
  {
    if |parts| > 1 {
      EndedIsJoined(parts[1..], delimiter);
    } else {
      assert Ended(parts[1..], delimiter) == "";
    }
  }

  lemma {:induction false} EndedMore(parts: seq<string>, part: string, delimiter: char)
    ensures Ended(parts + [part], delimiter) == Ended(parts, delimiter) + part + [delimiter]
  {
    if parts == [] {
      assert [part][1..] == [];
      assert Ended([part], delimiter) == part + [delimiter] + "";
    } else {
      EndedMore(parts[1..], part, delimiter);
      assert (parts + [part])[1..] == parts[1..] + [part];
    }
  }

  ghost predicate Free(parts: seq<string>, delimiter: char) {
    forall part :: part in parts ==> delimiter !in part
  }

  lemma FirstLine(part: string, rest: string, delimiter: char)
    requires delimiter !in part
    ensures Lines(part + [delimiter] + rest, delimiter) == [part] + Lines(rest, delimiter)
  {
    var all := part + [delimiter] + rest;
    assert all[..|part|] == part && all[|part| + 1..] == rest;
    FindIs(all, delimiter, |part|);
  }

  /** The parts without an empty last one. */
  function Kept(parts: seq<string>): seq<string>
    requires parts != []
  {
    if parts[|parts| - 1] == "" then parts[..|parts| - 1] else parts
  }

  lemma KeptMore(part: string, rest: seq<string>)
    requires rest != []
    ensures Kept([part] + rest) == [part] + Kept(rest)
  {
    var all := [part] + rest;
    assert all[..|all| - 1] == [part] + rest[..|rest| - 1];
  }

  lemma FreeRest(part: string, rest: seq<string>, delimiter: char)
    requires Free([part] + rest, delimiter)
    ensures delimiter !in part && Free(rest, delimiter)
  {
    var all := [part] + rest;
    assert all[0] in all;
    forall other | other in rest ensures delimiter !in other {
      assert other in all;
    }
  }

  /** Reading lines undoes joining, but for an empty last part, which is lost. */
  lemma {:induction false} LinesOfJoined(parts: seq<string>, delimiter: char)
    requires parts != [] && Free(parts, delimiter)
    ensures Lines(Joined(parts, delimiter), delimiter) == Kept(parts)
  {
    var part, rest := parts[0], parts[1..];
    assert parts == [part] + rest;
    FreeRest(part, rest, delimiter);
    if rest == [] {
      OneLine(part, delimiter);
    } else {
      LinesOfJoined(rest, delimiter);
      FirstLine(part, Joined(rest, delimiter), delimiter);
      KeptMore(part, rest);
    }
  }

  lemma OneLine(part: string, delimiter: char)
    requires delimiter !in part
    ensures Lines(part, delimiter) == if part == "" then [] else [part]
  {
    assert part[..|part|] == part;
    FindIs(part, delimiter, |part|);
  }

  // ---- By a string ----

  predicate OccursAt(data: string, delimiter: string, p: nat) {
    p + |delimiter| <= |data| && data[p..p + |delimiter|] == delimiter
  }

  /** First occurrence at or after `from`, or -1. */
  function FindFrom(data: string, delimiter: string, from: nat): (p: int)
    requires from <= |data|
    ensures p == -1 ==> forall q: nat :: from <= q ==> !OccursAt(data, delimiter, q)
    ensures p != -1 ==> from <= p && OccursAt(data, delimiter, p) && forall q: nat :: from <= q < p ==> !OccursAt(data, delimiter, q)
    decreases |data| - from
  {
    if OccursAt(data, delimiter, from) then from
    else if from == |data| then -1
    else FindFrom(data, delimiter, from + 1)
  }

  /** The tokens put together again. */
  function Rejoined(tokens: seq<string>, delimiter: string): string {
    if tokens == [] then "" else Rejoined(tokens[..|tokens| - 1], delimiter) + tokens[|tokens| - 1] + delimiter
  }

  ghost predicate WithoutDelimiter(token: string, delimiter: string) {
    forall q: nat :: !OccursAt(token, delimiter, q)
  }

  /** Takes the tokens off one after the other. It ends for every delimiter that is not empty; the tokens, put
      together, are the data, and none of them has the delimiter in it. */
  method SplitByString(data: string, delimiter: string) returns (tokens: seq<string>)
    requires delimiter != ""
    ensures tokens != [] && Rejoined(tokens[..|tokens| - 1], delimiter) + tokens[|tokens| - 1] == data
    ensures AllWithout(tokens, delimiter)
  {
    tokens := [];
    var rest := data;
    var pos := FindFrom(rest, delimiter, 0);
    while pos != -1
      invariant pos == FindFrom(rest, delimiter, 0)
      invariant Rejoined(tokens, delimiter) + rest == data
      invariant AllWithout(tokens, delimiter)
      decreases |rest|
    {
      var token := rest[..pos];
      Shorter(rest, delimiter, pos);
      TokenTaken(tokens, rest, delimiter, pos);
      tokens := tokens + [token];
      rest := rest[pos + |delimiter|..];
      pos := FindFrom(rest, delimiter, 0);
    }
    assert WithoutDelimiter(rest, delimiter);
    assert (tokens + [rest])[..|tokens|] == tokens;
    tokens := tokens + [rest];
  }

  ghost predicate AllWithout(tokens: seq<string>, delimiter: string) {
    forall token :: token in tokens ==> WithoutDelimiter(token, delimiter)
  }

  lemma TokenTaken(tokens: seq<string>, rest: string, delimiter: string, pos: nat)
    requires OccursAt(rest, delimiter, pos)
    ensures Rejoined(tokens + [rest[..pos]], delimiter) + rest[pos + |delimiter|..] == Rejoined(tokens, delimiter) + rest
  {
    RejoinedMore(tokens, rest[..pos], delimiter);
    Reassociated(Rejoined(tokens, delimiter), rest[..pos], delimiter, rest[pos + |delimiter|..]);
    assert rest == rest[..pos] + delimiter + rest[pos + |delimiter|..];
  }

  lemma RejoinedMore(tokens: seq<string>, token: string, delimiter: string)
    ensures Rejoined(tokens + [token], delimiter) == Rejoined(tokens, delimiter) + token + delimiter
  {
    assert (tokens + [token])[..|tokens|] == tokens;
  }

  lemma Reassociated(a: string, b: string, c: string, d: string)
    ensures a + b + c + d == a + (b + c + d)
  {
  }

  lemma Shorter(data: string, delimiter: string, p: nat)
    requires p <= |data| && delimiter != "" && forall q: nat :: q < p ==> !OccursAt(data, delimiter, q)
    ensures WithoutDelimiter(data[..p], delimiter)
  {
    forall q: nat ensures !OccursAt(data[..p], delimiter, q) {
      if OccursAt(data[..p], delimiter, q) {
        assert data[..p][q..q + |delimiter|] == data[q..q + |delimiter|];
        assert OccursAt(data, delimiter, q);
      }
    }
  }
}
