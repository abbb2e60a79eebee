/** Adding a key to an authorized_keys file: the file is scanned line by line and, when the key is
    not among the lines, written again from its start without being truncated. */
module AuthorizedKeys {
  import opened Text

  /** `bufio.MaxScanTokenSize`: a line that fills the scanner's buffer stops the scan. */
  const MAX_SCAN_TOKEN_SIZE := 65536

  /** The lines of a text as they stand; text after the last line end counts if there is any. */
  function RawLines(s: string): seq<string>
    decreases |s|
  {
    if s == "" then []
    else
      var i := IndexOf(s, '\n');
      [s[..i]] + if i < |s| then RawLines(s[i + 1..]) else []
  }

  /** `bufio.ScanLines` drops one trailing carriage return. */
  function DropCR(line: string): string {
    if line != "" && line[|line| - 1] == '\r' then line[..|line| - 1] else line
  }

  /** What the scanner yields: it stops without a word at the first line that is too long. */
  function ScanLines(raw: seq<string>): (lines: seq<string>)
    ensures |lines| <= |raw|
  {
    if raw == [] || |raw[0]| >= MAX_SCAN_TOKEN_SIZE then [] else [DropCR(raw[0])] + ScanLines(raw[1..])
  }

  function Scan(s: string): seq<string> {
    ScanLines(RawLines(s))
  }

  /** Every line with its line end. */
  function UnLines(lines: seq<string>): string {
    if lines == [] then "" else lines[0] + "\n" + UnLines(lines[1..])
  }

  /** Writing at the start of a file that is not truncated: an old tail stays. */
  function Overwrite(content: string, text: string): string {
    text + if |content| > |text| then content[|text|..] else ""
  }

  /** The file after `appendKey`, when every call succeeds. */
  function Appended(content: string, key: string): string {
    AppendedTo(content, content, key)
  }

  /** The file after `appendKey` when only `read` was read of it. */
  function AppendedTo(content: string, read: string, key: string): string {
    if key in Scan(read) then content else Overwrite(content, UnLines(Scan(read) + [key]))
  }

  /** The content with its last line ended. */
  function Completed(content: string): string {
    if content == "" || content[|content| - 1] == '\n' then content else content + "\n"
  }

  /** A line the scanner passes on unchanged. */
  predicate Plain(line: string) {
    |line| < 65536 && (line != "" ==> line[|line| - 1] != '\r')
  }

  /** The scanner yields each line, without the one carriage return it may end in, up to the first
      line of 65536 characters or more. */
  lemma {:induction false} ScansUpTo(raw: seq<string>)
    ensures var lines := ScanLines(raw);
      && |lines| <= |raw| && (|lines| < |raw| ==> |raw[|lines|]| >= 65536)
      && forall i | 0 <= i < |lines| ::
           |raw[i]| < 65536 && (raw[i] == lines[i] + "\r" || (raw[i] == lines[i] && (lines[i] == "" || lines[i][|lines[i]| - 1] != '\r')))
  {
    if raw != [] && |raw[0]| < 65536 {
      ScansUpTo(raw[1..]);
      var lines := ScanLines(raw);
      assert lines[1..] == ScanLines(raw[1..]);
      forall i | 0 <= i < |lines|
        ensures |raw[i]| < 65536
        ensures raw[i] == lines[i] + "\r" || (raw[i] == lines[i] && (lines[i] == "" || lines[i][|lines[i]| - 1] != '\r'))
      {
        if i == 0 {
          assert raw[0] == "" || raw[0] == raw[0][..|raw[0]| - 1] + [raw[0][|raw[0]| - 1]];
        } else {
          assert raw[i] == raw[1..][i - 1] && lines[i] == lines[1..][i - 1];
        }
      }
    }
  }

  /** What is written over a file that is not truncated: the text stands at its start, and what was
      there beyond the text's length stays. */
  lemma OverwrittenAt(content: string, text: string, i: nat)
    ensures |Overwrite(content, text)| == if |content| > |text| then |content| else |text|
    ensures i < |text| ==> Overwrite(content, text)[i] == text[i]
    ensures |text| <= i < |content| ==> Overwrite(content, text)[i] == content[i]
  {
  }

  /** A key that the scanner finds leaves the file alone; any other is written behind the lines the
      scanner found, over the old content. */
  lemma AppendedIs(content: string, key: string)
    ensures key in Scan(content) ==> Appended(content, key) == content
    ensures key !in Scan(content) ==>
              var text := UnLines(Scan(content)) + key + "\n";
              text <= Appended(content, key) && Appended(content, key)[|text|..] == if |content| > |text| then content[|text|..] else ""
  {
    UnLinesConcat(Scan(content), [key]);
    assert UnLines([key]) == key + "\n" + UnLines([]);
    assert UnLines(Scan(content)) + (key + "\n") == UnLines(Scan(content)) + key + "\n";
  }

  ghost predicate AllPlain(lines: seq<string>) {
    forall l | l in lines :: Plain(l)
  }

  ghost predicate NoNewlines(lines: seq<string>) {
    forall l | l in lines :: '\n' !in l
  }

  lemma {:induction false} UnLinesConcat(a: seq<string>, b: seq<string>)
    ensures UnLines(a + b) == UnLines(a) + UnLines(b)
  {
    if a == [] {
      assert a + b == b;
    } else {
      assert (a + b)[1..] == a[1..] + b;
      UnLinesConcat(a[1..], b);
    }
  }

  /** `strings.Join(lines, "\n") + "\n"` ends every line, the last one too. */
  lemma {:induction false} JoinEndsLines(lines: seq<string>)
    requires lines != []
    ensures Join(lines, '\n') + "\n" == UnLines(lines)
  {
    if |lines| > 1 { JoinEndsLines(lines[1..]); }
  }

  lemma FirstRawLine(line: string, rest: string)
    requires '\n' !in line
    ensures RawLines(line + "\n" + rest) == [line] + RawLines(rest)
  {
    FirstPart(line, '\n', rest);
  }

  lemma FirstCompletedLine(line: string, rest: string)
    ensures Completed(line + "\n" + rest) == line + "\n" + Completed(rest)
  {
    var s := line + "\n" + rest;
    assert s[|s| - 1] == if rest == "" then '\n' else rest[|rest| - 1];
  }

  lemma OnlyRawLine(s: string)
    requires '\n' !in s && s != ""
    ensures RawLines(s) == [s] && Completed(s) == s + "\n"
  {
    assert s[..|s|] == s;
  }

  /** The lines of a text, written out, are the text with its last line ended. */
  lemma {:induction false} WriteRawLines(s: string)
    ensures UnLines(RawLines(s)) == Completed(s) && NoNewlines(RawLines(s))
    decreases |s|
  {
    if s != "" {
      var i := IndexOf(s, '\n');
      if i < |s| {
        var line, rest := s[..i], s[i + 1..];
        assert s == line + "\n" + rest;
        FirstRawLine(line, rest);
        FirstCompletedLine(line, rest);
        WriteRawLines(rest);
      } else {
        OnlyRawLine(s);
        assert UnLines([s]) == s + "\n" + UnLines([]);
      }
    }
  }

  lemma {:induction false} ReadUnLines(lines: seq<string>)
    requires NoNewlines(lines)
    ensures RawLines(UnLines(lines)) == lines
  {
    if lines != [] {
      assert lines[0] in lines;
      FirstRawLine(lines[0], UnLines(lines[1..]));
      ReadUnLines(lines[1..]);
      assert lines == [lines[0]] + lines[1..];
    }
  }

  lemma {:induction false} ScanConcat(a: seq<string>, b: seq<string>)
    requires AllPlain(a)
    ensures ScanLines(a + b) == a + ScanLines(b)
  {
    if a == [] {
      assert a + b == b;
    } else {
      assert a[0] in a && (a + b)[0] == a[0] && (a + b)[1..] == a[1..] + b;
      ScanConcat(a[1..], b);
    }
  }

  /** The scanner yields the lines as they stand iff it passes every one on unchanged. */
  lemma {:induction false} ScansAllIffPlain(raw: seq<string>)
    ensures ScanLines(raw) == raw <==> AllPlain(raw)
  {
    if raw != [] {
      ScansAllIffPlain(raw[1..]);
      assert raw == [raw[0]] + raw[1..];
      assert forall l :: l in raw <==> l == raw[0] || l in raw[1..];
      if |raw[0]| < MAX_SCAN_TOKEN_SIZE {
        var scanned := ScanLines(raw);
        assert scanned[0] == DropCR(raw[0]) && scanned[1..] == ScanLines(raw[1..]);
        assert scanned == [scanned[0]] + scanned[1..];
        assert scanned == raw <==> scanned[0] == raw[0] && scanned[1..] == raw[1..];
        assert AllPlain(raw) <==> Plain(raw[0]) && AllPlain(raw[1..]);
      } else {
        assert raw[0] in raw && !Plain(raw[0]);
      }
    }
  }

  lemma {:induction false} ScannedHaveNoNewlines(raw: seq<string>)
    requires NoNewlines(raw)
    ensures NoNewlines(ScanLines(raw))
  {
    if raw != [] && |raw[0]| < MAX_SCAN_TOKEN_SIZE {
      assert raw[0] in raw;
      ScannedHaveNoNewlines(raw[1..]);
    }
  }

  /** When one text of ended lines begins another, its lines begin the other's. */
  lemma {:induction false} PrefixOfLines(a: seq<string>, b: seq<string>)
    requires NoNewlines(a) && NoNewlines(b)
    ensures UnLines(a) <= UnLines(b) ==> a <= b
  {
    if a != [] && b != [] {
      assert a[0] in a && b[0] in b;
      var s, t := UnLines(a[1..]), UnLines(b[1..]);
      if UnLines(a) <= UnLines(b) {
        SameFirstLine(a[0], b[0], s, t);
        PrefixOfLines(a[1..], b[1..]);
        assert a == [a[0]] + a[1..] && b == [b[0]] + b[1..];
      }
    }
  }

  lemma SameFirstLine(a: string, b: string, s: string, t: string)
    requires '\n' !in a && '\n' !in b && a + "\n" + s <= b + "\n" + t
    ensures a == b && s <= t
  {
    var x, y := a + "\n" + s, b + "\n" + t;
    FirstPart(a, '\n', s);
    FirstPart(b, '\n', t);
    assert x == y[..|x|];
    IndexOfLeast(y, '\n', |a|);
    IndexOfLeast(x, '\n', |b|);
    assert s == x[|a| + 1..] && t == y[|a| + 1..];
  }

  lemma PrefixNotLonger(a: seq<string>, b: seq<string>)
    ensures a <= b ==> |UnLines(a)| <= |UnLines(b)|
  {
    if a <= b {
      assert b == a + b[|a|..];
      UnLinesConcat(a, b[|a|..]);
    }
  }

  /** The file after `scanned` and the key were written over it: nothing is lost exactly when the
      lines scanned are the lines of the file. */
  lemma RewriteIsLossless(content: string, scanned: seq<string>, key: string)
    requires '\n' !in key && NoNewlines(scanned)
    ensures Overwrite(content, UnLines(scanned + [key])) == Completed(content) + key + "\n" <==> scanned == RawLines(content)
  {
    var raw := RawLines(content);
    WriteRawLines(content);
    UnLinesConcat(raw, [key]);
    assert UnLines([key]) == key + "\n" + UnLines([]);
    assert UnLines(raw + [key]) == Completed(content) + key + "\n";
    assert raw == (raw + [key])[..|raw|];
    if Overwrite(content, UnLines(scanned + [key])) == UnLines(raw + [key]) {
      assert UnLines(scanned + [key]) <= UnLines(raw + [key]);
      PrefixOfLines(scanned + [key], raw + [key]);
      PrefixNotLonger(scanned + [key], raw);
      if |scanned| == |raw| {
        assert scanned == (scanned + [key])[..|raw|];
      }
    }
  }

  /** `appendKey` loses nothing exactly when the scanner passes every line on unchanged: a new key
      then ends up after the old content, on a line of its own, and no old tail is left behind
      although the file is not truncated. A line that ends in a carriage return or is too long
      for the scanner always damages the file. */
  lemma AppendIsLossless(content: string, key: string)
    requires '\n' !in key && key !in Scan(content)
    ensures Appended(content, key) == Completed(content) + key + "\n" <==> AllPlain(RawLines(content))
  {
    WriteRawLines(content);
    ScannedHaveNoNewlines(RawLines(content));
    ScansAllIffPlain(RawLines(content));
    RewriteIsLossless(content, Scan(content), key);
  }

  /** A scanner that drops something writes less. */
  lemma {:induction false} ScannedAreShorter(raw: seq<string>)
    ensures |UnLines(ScanLines(raw))| <= |UnLines(raw)|
    ensures ScanLines(raw) != raw ==> |UnLines(ScanLines(raw))| < |UnLines(raw)|
  {
    if raw != [] && |raw[0]| < MAX_SCAN_TOKEN_SIZE {
      ScannedAreShorter(raw[1..]);
      assert raw == [raw[0]] + raw[1..];
    }
  }

  lemma CompletedSameLines(a: string, b: string)
    requires Completed(a) == Completed(b)
    ensures RawLines(a) == RawLines(b)
  {
    WriteRawLines(a);
    WriteRawLines(b);
    PrefixOfLines(RawLines(a), RawLines(b));
    PrefixOfLines(RawLines(b), RawLines(a));
  }

  /** The scanner finds the lines of the whole file in what was read of it iff it passes every line
      on unchanged and at most the line end of the last one was still to be read. */
  lemma ReadsAllIff(content: string, end: nat)
    requires end <= |content|
    ensures var read := content[..end];
      Scan(read) == RawLines(content) <==> AllPlain(RawLines(read)) && (content == read || content == Completed(read))
  {
    var read := content[..end];
    WriteRawLines(read);
    WriteRawLines(content);
    ScansAllIffPlain(RawLines(read));
    ScannedAreShorter(RawLines(read));
    if content == read || content == Completed(read) {
      CompletedSameLines(read, content);
    }
  }

  /** A read error is not noticed: the scanner takes what was read before it, the first `end`
      characters, for the whole file. The addition is then lossless exactly when every line read
      is passed on unchanged and at most the line end of the last one was still to be read. */
  lemma ReadErrorIsLossless(content: string, end: nat, key: string)
    requires end <= |content| && '\n' !in key && key !in Scan(content[..end])
    ensures var read := content[..end];
      AppendedTo(content, read, key) == Completed(content) + key + "\n" <==>
      AllPlain(RawLines(read)) && (content == read || content == Completed(read))
  {
    WriteRawLines(content[..end]);
    ScannedHaveNoNewlines(RawLines(content[..end]));
    RewriteIsLossless(content, Scan(content[..end]), key);
    ReadsAllIff(content, end);
  }

  /** After a lossless addition the scanner reads the old lines and then the key, iff it passes
      the key on unchanged. Adding the key a second time leaves the file as it is, iff the key
      does not end in a carriage return or is too long to be scanned at all. */
  lemma AppendIsIdempotent(content: string, key: string)
    requires '\n' !in key && key !in Scan(content) && AllPlain(RawLines(content))
    ensures Scan(Appended(content, key)) == Scan(content) + [key] <==> Plain(key)
    ensures Appended(Appended(content, key), key) == Appended(content, key) <==>
              DropCR(key) == key || |key| >= MAX_SCAN_TOKEN_SIZE
  {
    RescanAppended(content, key);
    var raw, once := RawLines(content), Appended(content, key);
    if |key| >= MAX_SCAN_TOKEN_SIZE {
      assert Scan(once) == raw;
    } else if DropCR(key) == key {
      assert key in Scan(once);
    } else {
      assert key !in Scan(once) && Scan(once) + [key] == raw + [DropCR(key), key];
      StrippedKeyAddedAgain(raw, key);
    }
  }

  lemma StrippedKeyAddedAgain(raw: seq<string>, key: string)
    requires DropCR(key) != key
    ensures |UnLines(raw + [DropCR(key), key])| > |UnLines(raw + [key])|
  {
    UnLinesConcat(raw, [key]);
    UnLinesConcat(raw, [DropCR(key), key]);
    assert UnLines([key]) == key + "\n" + UnLines([]);
    assert [DropCR(key), key][1..] == [key];
    assert UnLines([DropCR(key), key]) == DropCR(key) + "\n" + UnLines([key]);
  }

  lemma RescanAppended(content: string, key: string)
    requires '\n' !in key && key !in Scan(content) && AllPlain(RawLines(content))
    ensures Appended(content, key) == UnLines(RawLines(content) + [key]) && Scan(content) == RawLines(content)
    ensures Scan(Appended(content, key)) ==
              RawLines(content) + if |key| >= MAX_SCAN_TOKEN_SIZE then [] else [DropCR(key)]
  {
    AppendedText(content, key);
    WriteRawLines(content);
    ReadUnLines(RawLines(content) + [key]);
    ScanConcat(RawLines(content), [key]);
    ScansAllIffPlain(RawLines(content));
  }

  lemma AppendedText(content: string, key: string)
    requires '\n' !in key && key !in Scan(content) && AllPlain(RawLines(content))
    ensures Appended(content, key) == UnLines(RawLines(content) + [key])
  {
    AppendIsLossless(content, key);
    WriteRawLines(content);
    UnLinesConcat(RawLines(content), [key]);
    assert UnLines([key]) == key + "\n" + UnLines([]);
  }

  class KeyFile {
    var content: string
    var faults: nat

    constructor (content: string)
      ensures this.content == content && faults == 0
    {
      this.content, faults := content, 0;
    }

    method Attempt() returns (ok: bool)
      modifies `faults
      ensures faults == old(faults) + if ok then 0 else 1
    {
      ok := *;
      if !ok { faults := faults + 1; }
    }

    /** The scanning loop, over what the scanner was able to read. */
    static method ScanText(read: string, key: string) returns (lines: seq<string>, found: bool)
      ensures lines == Scan(read) && found == (key in lines)
    {
      lines, found := [], false;
      var raw := RawLines(read);
      for i := 0 to |raw|
        invariant |lines| == i && lines + ScanLines(raw[i..]) == Scan(read)
        invariant found == (key in lines)
      {
        if |raw[i]| >= MAX_SCAN_TOKEN_SIZE { break; }
        var line := DropCR(raw[i]);
        if line == key { found := true; }
        assert lines + ScanLines(raw[i..]) == lines + [line] + ScanLines(raw[i + 1..]);
        lines := lines + [line];
      }
    }

    /** A read error is not noticed: the scanner goes on with what it has read so far, an unfinished
        line included, as if the file ended there. */
    method ScanFile(key: string) returns (lines: seq<string>, found: bool)
      modifies `faults
      ensures faults >= old(faults)
      ensures exists end: nat :: end <= |content| && lines == Scan(content[..end])
      ensures found == (key in lines)
      ensures faults == old(faults) ==> lines == Scan(content)
    {
      var end: nat := |content|;
      assert content[..end] == content;
      var ok := Attempt();  // read to the end of the file
      if !ok {
        end := *;
        if end > |content| { end := |content|; }
      }
      lines, found := ScanText(content[..end], key);
    }

    /** `appendKey`: with no failing call the file becomes Appended. Otherwise the file is untouched,
        or the lines of what was read of it, then the key, were written over it, all of that or,
        after a failing write, a beginning of it. With no error it was all of it. */
    method AppendKey(key: string) returns (ok: bool)
      modifies this
      ensures faults >= old(faults)
      ensures faults == old(faults) ==> ok && content == Appended(old(content), key)
      ensures content == old(content)
              || exists end: nat, text: string :: && end <= |old(content)| && key !in Scan(old(content)[..end])
                   && text <= UnLines(Scan(old(content)[..end]) + [key]) && content == Overwrite(old(content), text)
      ensures ok ==> exists end: nat :: end <= |old(content)| && content == AppendedTo(old(content), old(content)[..end], key)
    {
      ok := Attempt();  // open for reading
      if !ok { return; }
      var lines, found := ScanFile(key);
      ok := Attempt();  // close
      if !ok || found { return; }
      ok := Attempt();  // open for writing, not truncated
      if !ok { return; }
      var text := Join(lines + [key], '\n') + "\n";
      JoinEndsLines(lines + [key]);
      ok := Attempt();  // write
      if !ok {
        var written: int := *;
        if 0 <= written < |text| { text := text[..written]; }
      }
      content := Overwrite(content, text);
      if ok {
        ok := Attempt();  // close
      }
    }
  }
}
