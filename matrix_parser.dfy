/**
 * The bundle splitter: a bundle is a header line followed by body lines; the
 * body is cut into blocks of `matrixLength` lines and every block is written,
 * preceded by the header, to its own output file `out_n_<k>`.
 *
 * Lines are the strings `readlines()` returns (each keeps its terminator).
 * Directory creation and file writes are not modelled; the files the script
 * writes are returned, in writing order, as (name, content) pairs. A Python
 * exception is returned next to the files written before it was raised.
 */
module MatrixParser {
  import opened Seqs
  import opened Decimal

  datatype Option<T> = None | Some(value: T)

  /** The two exceptions the script can raise on in-memory input. */
  datatype PyError = IndexError | ValueError

  datatype OutFile = OutFile(name: string, content: string)

  /** Geometry read from the header: length = digit at 0 plus one, width = digit at 2. */
  datatype Header = Header(matrixLength: nat, matrixWidth: nat)

  datatype HeaderResult = HeaderOk(header: Header) | HeaderErr(error: PyError)

  /** `int(ch)` for a one-character string: only a decimal digit converts. */
  function DigitValue(ch: char): (r: Option<nat>)
    ensures r.Some? <==> '0' <= ch <= '9'
    ensures r.Some? ==> r.value < 10 && ch == ('0' as int + r.value) as char
  {
    if '0' <= ch <= '9' then Some(ch as int - '0' as int) else None
  }

  /** Name of the k-th output file (k counts from 1). */
  function OutName(k: nat): string
  {
    "out_n_" + NatToString(k)
  }

  /** Lines 15-16 of the script: index 0, convert, index 2, convert, in that order. */
  function ParseHeader(firstLine: string): (r: HeaderResult)
    ensures r.HeaderOk? <==> |firstLine| >= 3 && DigitValue(firstLine[0]).Some? && DigitValue(firstLine[2]).Some?
    ensures r.HeaderOk? ==>
              && r.header.matrixLength == DigitValue(firstLine[0]).value + 1
              && r.header.matrixWidth == DigitValue(firstLine[2]).value
    ensures r.HeaderErr? && |firstLine| == 0 ==> r.error == IndexError
    ensures r.HeaderErr? && |firstLine| > 0 && DigitValue(firstLine[0]).None? ==> r.error == ValueError
    ensures r.HeaderErr? && 0 < |firstLine| < 3 && DigitValue(firstLine[0]).Some? ==> r.error == IndexError
    ensures r.HeaderErr? && |firstLine| >= 3 && DigitValue(firstLine[0]).Some? && DigitValue(firstLine[2]).None? ==>
              r.error == ValueError
  {
    if |firstLine| == 0 then HeaderErr(IndexError)
    else match DigitValue(firstLine[0])
      case None => HeaderErr(ValueError)
      case Some(d0) =>
        if |firstLine| < 3 then HeaderErr(IndexError)
        else match DigitValue(firstLine[2])
          case None => HeaderErr(ValueError)
          case Some(d2) => HeaderOk(Header(d0 + 1, d2))
  }

  /** Concatenation of a sequence of lines. */
  function Concat(ls: seq<string>): string
  {
    if ls == [] then [] else Concat(ls[..|ls| - 1]) + ls[|ls| - 1]
  }

  /**
   * Number of passes of `while i < nMatrix` with `nMatrix = (nlines - 2) / L`
   * under true division and `nlines = 1 + bodyLines`: the least i with
   * i * L >= bodyLines - 1.
   */
  function Passes(bodyLines: nat, len: nat): (k: nat)
    requires len > 0
  {
    if bodyLines < 2 then 0 else (bodyLines - 2) / len + 1
  }

  lemma PassesIsLoopBound(bodyLines: nat, len: nat, i: nat)
    requires len > 0
    ensures i < Passes(bodyLines, len) <==> i * len < bodyLines - 1
  {
    if bodyLines >= 2 {
      var q := (bodyLines - 2) / len;
      assert q * len <= bodyLines - 2 < (q + 1) * len;
      if i <= q {
        assert i * len <= q * len by { MulMono(i, q, len); }
      } else {
        assert (q + 1) * len <= i * len by { MulMono(q + 1, i, len); }
      }
    }
  }

  /** k * len, by repeated addition: the first body line of pass k. */
  function Times(k: nat, len: nat): nat
  {
    if k == 0 then 0 else Times(k - 1, len) + len
  }

  lemma {:induction false} TimesIsMul(k: nat, len: nat)
    ensures Times(k, len) == k * len
  {
    if k > 0 {
      TimesIsMul(k - 1, len);
    }
  }

  /** The loop test of the script, at the pass whose first body line is Times(i, len). */
  lemma LoopGuard(bodyLines: nat, len: nat, i: nat)
    requires len > 0
    ensures i < Passes(bodyLines, len) <==> Times(i, len) < bodyLines - 1
  {
    TimesIsMul(i, len);
    PassesIsLoopBound(bodyLines, len, i);
  }

  lemma ConcatSnoc(s: seq<string>, a: nat, b: nat)
    requires a <= b < |s|
    ensures Concat(s[a..b + 1]) == Concat(s[a..b]) + s[b]
  {
    assert s[a..b + 1][..b - a] == s[a..b];
  }

  /** The pass that reads past the body is the last one, and all earlier passes wrote a file. */
  lemma RunOffEnd(bodyLines: nat, len: nat, i: nat, j: nat)
    requires len > 0 && i < Passes(bodyLines, len) && j < len && Times(i, len) + j == bodyLines
    ensures RunsOffBody(bodyLines, len) && WrittenCount(bodyLines, len) == i
  {
    TimesIsMul(i, len);
    PassesIsLoopBound(bodyLines, len, i + 1);
    assert (i + 1) * len == i * len + len;
  }

  /** A loop that stops at Passes without reading past the body raises nothing. */
  lemma NoRunOff(bodyLines: nat, len: nat, i: nat)
    requires len > 0 && i == Passes(bodyLines, len) && Times(i, len) <= bodyLines
    ensures !RunsOffBody(bodyLines, len) && WrittenCount(bodyLines, len) == i
  {
    TimesIsMul(i, len);
  }

  /** Output file of pass i: the header and body lines i*L .. i*L+L-1. */
  function BlockFile(firstLine: string, body: seq<string>, len: nat, i: nat): (f: OutFile)
    requires Times(i + 1, len) <= |body|
    ensures f.name == OutName(i + 1)
  {
    OutFile(OutName(i + 1), firstLine + Concat(body[Times(i, len) .. Times(i + 1, len)]))
  }

  /** The files written so far are, in order, the blocks of passes 0, 1, .... */
  predicate WrittenBlocks(firstLine: string, body: seq<string>, len: nat, written: seq<OutFile>)
    decreases |written|
  {
    written == [] ||
    (&& WrittenBlocks(firstLine, body, len, written[..|written| - 1])
     && Times(|written|, len) <= |body|
     && written[|written| - 1] == BlockFile(firstLine, body, len, |written| - 1))
  }

  /** The k-th file written is the header followed by body lines k*L .. k*L+L-1. */
  lemma {:induction false} WrittenBlocksAt(firstLine: string, body: seq<string>, len: nat, written: seq<OutFile>, k: nat)
    requires WrittenBlocks(firstLine, body, len, written) && k < |written|
    ensures (k + 1) * len <= |body|
    ensures written[k] == OutFile(OutName(k + 1), firstLine + Concat(body[k * len .. (k + 1) * len]))
    decreases |written|
  {
    if k < |written| - 1 {
      var w := written[..|written| - 1];
      WrittenBlocksAt(firstLine, body, len, w, k);
      assert written[k] == w[k];
    } else {
      TimesIsMul(k, len);
      TimesIsMul(k + 1, len);
    }
  }

  /** The lines a written file adds after the header: its content without the first |firstLine| characters. */
  function Payload(firstLine: string, written: seq<OutFile>): string
  {
    if written == [] then []
    else
      var c := written[|written| - 1].content;
      Payload(firstLine, written[..|written| - 1]) + (if |firstLine| <= |c| then c[|firstLine|..] else [])
  }

  lemma {:induction false} ConcatAppend(a: seq<string>, b: seq<string>)
    ensures Concat(a + b) == Concat(a) + Concat(b)
    decreases |b|
  {
    if b == [] {
      assert a + b == a;
    } else {
      var m := |b| - 1;
      assert (a + b)[..|a + b| - 1] == a + b[..m];
      ConcatAppend(a, b[..m]);
      assert Concat(a + b) == Concat(a) + Concat(b[..m]) + b[m];
    }
  }

  /**
   * The files written so far carry, after their headers and taken in order,
   * exactly the first |written| * L body lines: no line is skipped, repeated
   * or reordered.
   */
  lemma {:induction false} WrittenBlocksPayload(firstLine: string, body: seq<string>, len: nat, written: seq<OutFile>)
    requires WrittenBlocks(firstLine, body, len, written)
    ensures |written| * len <= |body|
    ensures Payload(firstLine, written) == Concat(body[.. |written| * len])
    decreases |written|
  {
    var n := |written|;
    TimesIsMul(n, len);
    if n > 0 {
      var init := written[..n - 1];
      WrittenBlocksPayload(firstLine, body, len, init);
      TimesIsMul(n - 1, len);
      var a, b := Times(n - 1, len), Times(n, len);
      var c := written[n - 1].content;
      assert c == firstLine + Concat(body[a..b]);
      assert c[|firstLine|..] == Concat(body[a..b]);
      assert body[..b] == body[..a] + body[a..b];
      ConcatAppend(body[..a], body[a..b]);
    }
  }

  lemma WrittenBlocksSnoc(firstLine: string, body: seq<string>, len: nat, written: seq<OutFile>, offset: nat)
    requires WrittenBlocks(firstLine, body, len, written)
    requires offset == Times(|written|, len) && offset + len <= |body|
    ensures WrittenBlocks(firstLine, body, len,
              written + [OutFile(OutName(|written| + 1), firstLine + Concat(body[offset .. offset + len]))])
  {
    var f := OutFile(OutName(|written| + 1), firstLine + Concat(body[offset .. offset + len]));
    var w := written + [f];
    assert w[..|w| - 1] == written;
    assert w[|w| - 1] == f == BlockFile(firstLine, body, len, |written|);
  }

  /** Number of passes that complete (and write their file). */
  function WrittenCount(bodyLines: nat, len: nat): nat
    requires len > 0
  {
    var k := Passes(bodyLines, len);
    if k > 0 && k * len > bodyLines then k - 1 else k
  }

  /** The script raises IndexError inside the last pass exactly when that pass runs off the body. */
  predicate RunsOffBody(bodyLines: nat, len: nat)
    requires len > 0
  {
    var k := Passes(bodyLines, len);
    k > 0 && k * len > bodyLines
  }

  /**
   * The inner loop of one pass: the header followed by body lines
   * offset .. offset+len-1, or None where the script raises IndexError
   * because the body ends first.
   */
  method ReadBlock(firstLine: string, body: seq<string>, offset: nat, len: nat) returns (buff: Option<string>)
    requires offset <= |body|
    ensures buff.None? <==> offset + len > |body|
    ensures buff.Some? ==> buff.value == firstLine + Concat(body[offset .. offset + len])
  {
    var b := firstLine;
    var j := 0;
    while j < len
      invariant 0 <= j <= len
      invariant offset + j <= |body|
      invariant b == firstLine + Concat(body[offset .. offset + j])
    {
      if offset + j >= |body| {
        return None;
      }
      ConcatSnoc(body, offset, offset + j);
      assert (firstLine + Concat(body[offset .. offset + j])) + body[offset + j]
          == firstLine + (Concat(body[offset .. offset + j]) + body[offset + j]);
      b := b + body[offset + j];
      j := j + 1;
    }
    return Some(b);
  }

  /**
   * The whole script body for one input file, over its lines. Returns the files
   * written in order and the exception raised, if any.
   */
  method Split(lines: seq<string>) returns (written: seq<OutFile>, error: Option<PyError>)
    ensures |lines| == 0 ==> written == [] && error == Some(IndexError)
    ensures |lines| > 0 && ParseHeader(lines[0]).HeaderErr? ==>
              written == [] && error == Some(ParseHeader(lines[0]).error)
    ensures |lines| > 0 && ParseHeader(lines[0]).HeaderOk? ==>
              var len := ParseHeader(lines[0]).header.matrixLength;
              var body := lines[1..];
              && |written| == WrittenCount(|body|, len)
              && WrittenBlocks(lines[0], body, len, written)
              && (error == Some(IndexError) <==> RunsOffBody(|body|, len))
              && (error == None <==> !RunsOffBody(|body|, len))
  {
    written := [];
    if |lines| == 0 {
      return written, Some(IndexError);
    }
    var firstLine := lines[0];
    var body := lines[1..];
    var parsed := ParseHeader(firstLine);
    if parsed.HeaderErr? {
      return written, Some(parsed.error);
    }
    var len := parsed.header.matrixLength;

    // nlines = 1, then one more per body line
    var nlines := 1;
    var n := 0;
    while n < |body|
      invariant 0 <= n <= |body|
      invariant nlines == 1 + n
    {
      nlines := nlines + 1;
      n := n + 1;
    }

    var i := 0;
    var offset := 0;  // i * len, the index of the first body line of pass i
    // `i < (nlines - 2) / len` under true division, i.e. i * len < nlines - 2
    while offset < nlines - 2
      invariant offset == Times(i, len)
      invariant 0 <= i <= Passes(|body|, len)
      invariant offset <= |body|
      invariant |written| == i
      invariant WrittenBlocks(firstLine, body, len, written)
      decreases |body| - offset
    {
      LoopGuard(|body|, len, i);
      var buff := ReadBlock(firstLine, body, offset, len);
      if buff.None? {
        RunOffEnd(|body|, len, i, |body| - offset);
        return written, Some(IndexError);
      }
      WrittenBlocksSnoc(firstLine, body, len, written, offset);
      written := written + [OutFile(OutName(i + 1), buff.value)];
      i := i + 1;
      offset := offset + len;
    }
    LoopGuard(|body|, len, i);
    NoRunOff(|body|, len, i);
    return written, None;
  }

  lemma OutNameInjective(k1: nat, k2: nat)
    ensures OutName(k1) == OutName(k2) ==> k1 == k2
  {
    if OutName(k1) == OutName(k2) {
      assert NatToString(k1) == OutName(k1)[6..];
      assert NatToString(k2) == OutName(k2)[6..];
      ParseNatToString(k1);
      ParseNatToString(k2);
    }
  }

  /**
   * The script finishes without an exception exactly when the body has at most
   * one line or its length is 0 or 1 modulo the block length.
   */
  lemma CleanRunIff(bodyLines: nat, len: nat)
    requires len > 0
    ensures !RunsOffBody(bodyLines, len) <==> bodyLines < 2 || bodyLines % len == 0 || bodyLines % len == 1
  {
    if bodyLines >= 2 {
      var q := (bodyLines - 2) / len;
      var r := (bodyLines - 2) % len;
      assert Passes(bodyLines, len) == q + 1;
      assert (q + 1) * len == q * len + len;
      assert bodyLines == q * len + r + 2;
      if r + 2 < len {
        ModUnique(bodyLines, q, r + 2, len);
      } else if r + 2 == len {
        ModUnique(bodyLines, q + 1, 0, len);
      } else if len > 1 {
        ModUnique(bodyLines, q + 1, 1, len);
      }
    }
  }

  /** With blocks of two or more lines, a clean run writes one file per whole block. */
  lemma CleanRunCount(bodyLines: nat, len: nat)
    requires len >= 2 && !RunsOffBody(bodyLines, len)
    ensures WrittenCount(bodyLines, len) == bodyLines / len
  {
    CleanRunIff(bodyLines, len);
    if bodyLines >= 2 {
      var q := (bodyLines - 2) / len;
      var r := (bodyLines - 2) % len;
      assert bodyLines == q * len + r + 2;
      if r + 2 == len {
        ModUnique(bodyLines, q + 1, 0, len);
      } else {
        assert r + 2 == len + 1;
        ModUnique(bodyLines, q + 1, 1, len);
      }
    }
  }

  /**
   * A run whose blocks are two or more lines long carries in its files, after
   * the headers, the first L * floor(B / L) body lines, whether or not it
   * raises at the end.
   */
  lemma PayloadIsWholeBlocks(firstLine: string, body: seq<string>, len: nat, written: seq<OutFile>)
    requires len >= 2 && WrittenBlocks(firstLine, body, len, written)
    requires |written| == WrittenCount(|body|, len)
    ensures |written| == |body| / len && |written| * len <= |body|
            && Payload(firstLine, written) == Concat(body[.. |written| * len])
  {
    var q := |body| / len;
    if RunsOffBody(|body|, len) {
      FailedRunCount(|body|, len);
    } else {
      CleanRunCount(|body|, len);
    }
    assert |written| == q;
    WrittenBlocksPayload(firstLine, body, len, written);
  }

  /**
   * With a header digit of 0 (blocks of one line) the loop stops one pass
   * early: every body line but the last gets its own file, and no error is raised.
   */
  lemma SingleLineBlocksDropLast(bodyLines: nat)
    requires bodyLines >= 1
    ensures !RunsOffBody(bodyLines, 1) && WrittenCount(bodyLines, 1) == bodyLines - 1
  {
  }

  /** A run that raises has written every whole block that fits before the failing pass. */
  lemma FailedRunCount(bodyLines: nat, len: nat)
    requires len > 0 && RunsOffBody(bodyLines, len)
    ensures WrittenCount(bodyLines, len) == bodyLines / len
    ensures bodyLines % len >= 2
  {
    CleanRunIff(bodyLines, len);
    var q := (bodyLines - 2) / len;
    var r := (bodyLines - 2) % len;
    assert bodyLines == q * len + r + 2;
    assert (q + 1) * len == q * len + len;
    ModUnique(bodyLines, q, r + 2, len);
  }
}
