/** The log as bytes: where a record may be cut so that its line can still be read. */
module LogText {
  import opened Prelude
  import opened Catalog
  import opened MutationLog
  import opened Durability
  import opened Recovery

  type octet = n: nat | n < 256

  // ----- UTF-8 -----

  /** One to four bytes, the first of which tells how many. */
  function CharBytes(c: char): seq<octet> {
    var n := c as nat;
    if n < 0x80 then [n]
    else if n < 0x800 then [0xc0 + n / 64, 0x80 + n % 64]
    else if n < 0x1_0000 then [0xe0 + n / 4096, 0x80 + n / 64 % 64, 0x80 + n % 64]
    else [0xf0 + n / 262144, 0x80 + n / 4096 % 64, 0x80 + n / 64 % 64, 0x80 + n % 64]
  }

  function Width(lead: octet): nat {
    if lead < 0x80 then 1 else if lead < 0xe0 then 2 else if lead < 0xf0 then 3 else 4
  }

  function TextBytes(text: string): seq<octet> {
    if text == [] then [] else CharBytes(text[0]) + TextBytes(text[1..])
  }

  /** The character's number again, from its bytes. */
  function Code(bytes: seq<octet>): int {
    var b: seq<int> := bytes;
    match |b|
    case 1 => b[0]
    case 2 => (b[0] - 0xc0) * 64 + b[1] - 0x80
    case 3 => (b[0] - 0xe0) * 4096 + (b[1] - 0x80) * 64 + b[2] - 0x80
    case 4 => (b[0] - 0xf0) * 262144 + (b[1] - 0x80) * 4096 + (b[2] - 0x80) * 64 + b[3] - 0x80
    case _ => 0
  }

  lemma CodeOfChar(c: char)
    ensures Code(CharBytes(c)) == c as nat && |CharBytes(c)| == Width(CharBytes(c)[0])
  {
    var n := c as nat;
    assert n == n / 64 * 64 + n % 64 && n / 64 == n / 4096 * 64 + n / 64 % 64;
    assert n / 4096 == n / 262144 * 64 + n / 4096 % 64;
  }

  lemma CharIsItsBytes(a: char, b: char)
    ensures |CharBytes(a)| == Width(CharBytes(a)[0])
    ensures CharBytes(a) == CharBytes(b) ==> a == b
  {
    hide CharBytes, Code;
    CodeOfChar(a);
    CodeOfChar(b);
  }

  ghost predicate Decodable(bytes: seq<octet>) {
    exists text :: TextBytes(text) == bytes
  }

  /** The first `n` bytes are those of whole characters. */
  ghost predicate AtBoundary(text: string, n: nat) {
    exists k :: 0 <= k <= |text| && |TextBytes(text[..k])| == n
  }

  /** Text whose bytes begin another text's bytes begins that text. */
  lemma {:induction false} BytesBeginText(text: string, start: string, n: nat)
    requires n <= |TextBytes(text)| && TextBytes(start) == TextBytes(text)[..n]
    ensures start <= text
  {
    hide CharBytes;
    if start != [] {
      CharIsItsBytes(start[0], start[0]);
      CharIsItsBytes(text[0], start[0]);
      var first := CharBytes(start[0]);
      assert TextBytes(start)[0] == first[0] == TextBytes(text)[0] == CharBytes(text[0])[0];
      assert first == TextBytes(start)[..|first|] == TextBytes(text)[..|first|] == CharBytes(text[0]);
      assert TextBytes(start[1..]) == TextBytes(start)[|first|..];
      assert TextBytes(text[1..])[..n - |first|] == TextBytes(text)[..n][|first|..];
      BytesBeginText(text[1..], start[1..], n - |first|);
    }
  }

  lemma {:induction false} PrefixBytes(text: string, k: nat)
    requires k <= |text|
    ensures TextBytes(text[..k]) <= TextBytes(text)
  {
    hide CharBytes;
    if k > 0 {
      PrefixBytes(text[1..], k - 1);
      assert text[..k][1..] == text[1..][..k - 1];
    }
  }

  /** A text cut after some of its bytes can be read exactly when no character is cut. */
  lemma CutIsDecodableExactlyAtBoundary(text: string, n: nat)
    requires n <= |TextBytes(text)|
    ensures Decodable(TextBytes(text)[..n]) <==> AtBoundary(text, n)
  {
    hide TextBytes;
    if Decodable(TextBytes(text)[..n]) {
      var start :| TextBytes(start) == TextBytes(text)[..n];
      BytesBeginText(text, start, n);
      assert start == text[..|start|];
    }
    if AtBoundary(text, n) {
      var k :| 0 <= k <= |text| && |TextBytes(text[..k])| == n;
      PrefixBytes(text, k);
      assert TextBytes(text[..k]) == TextBytes(text)[..n];
    }
  }

  // ----- Lines -----

  ghost function TextOf(bytes: seq<octet>): string
    requires Decodable(bytes)
  {
    var text :| TextBytes(text) == bytes; text
  }

  lemma TextIsUnique(a: string, b: string)
    requires TextBytes(a) == TextBytes(b)
    ensures a == b
  {
    hide TextBytes;
    assert TextBytes(a)[..|TextBytes(a)|] == TextBytes(b);
    BytesBeginText(a, b, |TextBytes(a)|);
    BytesBeginText(b, a, |TextBytes(a)|);
  }

  /** What a load makes of a line's bytes, before their newline. */
  ghost function ContentOf(bytes: seq<octet>, parse: string -> Option<Record>): Content {
    if !Decodable(bytes) then Undecodable
    else if forall c :: c in TextOf(bytes) ==> IsWhitespace(c) then Blank
    else match parse(TextOf(bytes)) case None => Unparsable case Some(record) => Parsed(record)
  }

  /** The text of a record: an object, complete with its last character and not before. */
  ghost predicate Writes(text: string, record: Record, parse: string -> Option<Record>) {
    text != [] && text[0] == '{' && parse(text) == Some(record)
    && forall k :: 0 < k < |text| ==> parse(text[..k]) == None
  }

  lemma CutRecordContent(text: string, record: Record, parse: string -> Option<Record>, n: nat)
    requires Writes(text, record, parse) && 0 < n <= |TextBytes(text)|
    ensures ContentOf(TextBytes(text)[..n], parse) ==
      if !AtBoundary(text, n) then Undecodable else if n < |TextBytes(text)| then Unparsable else Parsed(record)
  {
    hide TextBytes, IsWhitespace;
    var bytes := TextBytes(text)[..n];
    CutIsDecodableExactlyAtBoundary(text, n);
    if AtBoundary(text, n) {
      var start := TextOf(bytes);
      assert TextBytes(start) == bytes;
      BytesBeginText(text, start, n);
      assert start == text[..|start|];
      NoBytes();
      assert start != [];
      BraceIsNoWhitespace();
      assert start[0] == '{';
      if |start| == |text| {
        assert start == text;
      } else if n == |TextBytes(text)| {
        assert bytes == TextBytes(text);
        TextIsUnique(start, text);
      }
    }
  }

  lemma NoBytes()
    ensures TextBytes([]) == []
  {
  }

  lemma BraceIsNoWhitespace()
    ensures !IsWhitespace('{')
  {
  }

  /** In every run on a disk that is not spoiled, a record cut short by a crash after any of
      its bytes leaves a log that loads exactly when no character is cut, and then with the
      transaction only if the record is a whole commit. */
  lemma CutRecordRecoversExactlyAtBoundary(
      limits: StoreLimits, es: seq<Event>, text: string, record: Record, parse: string -> Option<Record>, n: nat)
    requires Run(limits, INITIAL_MACHINE, es).Some? && NoSpoiledRestart(limits, es) && !Spoiled(limits, es)
    requires var m := Run(limits, INITIAL_MACHINE, es).value;
             if m.phase.Committing? then record == Commit(m.phase.id) else record.Begin?
    requires Writes(text, record, parse) && 0 < n <= |TextBytes(text)|
    ensures
      var m := Run(limits, INITIAL_MACHINE, es).value;
      var torn := Line(ContentOf(TextBytes(text)[..n], parse), false);
      var committed :=
        if record.Commit? && n == |TextBytes(text)| then m.committed + m.phase.mutations else m.committed;
      var loaded := Load(limits.memoryLimitBytes, m.disk.(log := Some(Lines(m.disk) + [torn])));
      (loaded.Ok? <==> AtBoundary(text, n))
      && (loaded.Ok? ==> Normalized(loaded.value) == Normalized(ApplyAll(EMPTY_DATABASE, committed)))
  {
    hide Run, NoSpoiledRestart, Spoiled, TextBytes, AtBoundary, ContentOf, Load, Normalized, ApplyAll, Writes;
    CutRecordContent(text, record, parse, n);
    var torn := Line(ContentOf(TextBytes(text)[..n], parse), false);
    TornWriteIsRecoveredExactlyWhenDecodable(limits, es, torn);
  }

  /** The input: any record with a character beyond ASCII, cut behind the first byte of its
      first such character. */
  lemma CutInsideCharacter(text: string, k: nat)
    requires k < |text| && text[k] as nat >= 0x80
    ensures var n := |TextBytes(text[..k])| + 1; n < |TextBytes(text)| && !AtBoundary(text, n)
  {
    hide CharBytes;
    var n := |TextBytes(text[..k])| + 1;
    WideChar(text[k]);
    BytesSplit(text, k);
    BytesSplit(text, k + 1);
    forall j | 0 <= j <= |text| ensures |TextBytes(text[..j])| != n {
      if j <= k {
        BytesGrow(text, j, k);
      } else {
        BytesGrow(text, k + 1, j);
      }
    }
  }

  lemma WideChar(c: char)
    ensures c as nat >= 0x80 ==> |CharBytes(c)| >= 2
  {
  }

  lemma {:induction false} BytesSplit(text: string, k: nat)
    requires k <= |text|
    ensures TextBytes(text) == TextBytes(text[..k]) + TextBytes(text[k..])
    ensures k < |text| ==> TextBytes(text[..k + 1]) == TextBytes(text[..k]) + CharBytes(text[k])
  {
    hide CharBytes;
    if k > 0 {
      BytesSplit(text[1..], k - 1);
      assert text[..k][1..] == text[1..][..k - 1] && text[1..][k - 1..] == text[k..];
      if k < |text| {
        assert text[..k + 1][1..] == text[1..][..k];
      }
    } else {
      assert text[0..] == text;
      if text != [] {
        assert text[..1][1..] == [];
        assert TextBytes(text[..1]) == CharBytes(text[0]) + TextBytes([]);
      }
    }
  }

  lemma BytesGrow(text: string, j: nat, k: nat)
    requires j <= k <= |text|
    ensures |TextBytes(text[..j])| <= |TextBytes(text[..k])|
  {
    hide TextBytes;
    assert text[..k][..j] == text[..j];
    PrefixBytes(text[..k], j);
  }
}
