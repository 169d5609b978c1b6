/** The save-file de-obfuscator (`decrypt` in src/lib.rs).

    The obfuscated text is a run of tokens separated by the delimiters
    `[ ] = " \n \r`. Each delimiter flushes the token buffered before it and is
    then copied through. Flushing decodes the token's i-th character by
    subtracting the i-th byte (cyclically) of the key `QWERTY`, escapes a
    decoded `"` with a backslash, and, right after a `[`, puts a `.` before the
    first decoded digit. NUL characters are dropped.

    `Decrypted` is the token-level specification; the method `Decrypt` is the
    character-by-character loop of the source, proved equal to it. */
module Decrypt {
  import opened Results
  import opened Chars

  /** The byte values of the key `b"QWERTY"`. */
  const Key: seq<int> := [81, 87, 69, 82, 84, 89]

  /** Why a run aborts. Both are a panic in the source: the subtraction
      underflows, or its difference is not a Unicode scalar value. */
  datatype Abort = Underflow | NotAScalarValue

  predicate IsDelimiter(c: char) {
    c == '[' || c == ']' || c == '=' || c == '"' || c == '\n' || c == '\r'
  }

  /** The code points that `char::from_u32` accepts. */
  predicate IsScalarValue(n: int) {
    0 <= n < 0xD800 || 0xE000 <= n < 0x11_0000
  }

  predicate NoDelimiter(s: string) {
    forall k :: 0 <= k < |s| ==> !IsDelimiter(s[k])
  }

  /** Decodes the character at position `i` of its token. */
  function DecodeAt(c: char, i: nat): Result<char, Abort> {
    var code := c as int - Key[i % |Key|];
    if code < 0 then Err(Underflow)
    else if !IsScalarValue(code) then Err(NotAScalarValue)
    else Ok(code as char)
  }

  /** Decodes a whole token; the error is that of its first bad character. */
  function DecodeToken(token: string): Result<string, Abort> {
    if token == [] then Ok([])
    else
      var init :- DecodeToken(token[..|token| - 1]);
      var last :- DecodeAt(token[|token| - 1], |token| - 1);
      Ok(init + [last])
  }

  /** The i-th character of a token (i counted from 0 within the token)
      decodes to its code point minus the key byte at `i % 6`; the token
      decodes if and only if each of these differences is a `char`. */
  lemma {:induction false} DecodeTokenMeaning(token: string)
    ensures DecodeToken(token).Ok? <==>
      forall i :: 0 <= i < |token| ==> IsScalarValue(token[i] as int - Key[i % 6])
    ensures DecodeToken(token).Ok? ==> (|DecodeToken(token).value| == |token| &&
      forall i :: 0 <= i < |token| ==> DecodeToken(token).value[i] as int == token[i] as int - Key[i % 6])
  {
    if token != [] {
      var init := token[..|token| - 1];
      DecodeTokenMeaning(init);
      assert forall i :: 0 <= i < |init| ==> init[i] == token[i];
    }
  }

  /** Once a prefix of a token fails to decode, the whole token fails with the same error. */
  lemma {:induction false} DecodeTokenFailsFromPrefix(token: string, m: nat)
    requires m <= |token| && DecodeToken(token[..m]).Err?
    ensures DecodeToken(token) == DecodeToken(token[..m])
    decreases |token|
  {
    if m < |token| {
      var init := token[..|token| - 1];
      assert init[..m] == token[..m];
      DecodeTokenFailsFromPrefix(init, m);
    } else {
      assert token[..m] == token;
    }
  }

  /** The character-wise inverse of decoding: adds the key cyclically. */
  predicate Obfuscatable(plain: string) {
    forall i :: 0 <= i < |plain| ==> IsScalarValue(plain[i] as int + Key[i % 6])
  }

  function Obfuscate(plain: string): (token: string)
    requires Obfuscatable(plain)
    ensures |token| == |plain|
    ensures forall i :: 0 <= i < |plain| ==> token[i] as int == plain[i] as int + Key[i % 6]
  {
    seq(|plain|, i requires 0 <= i < |plain| => (plain[i] as int + Key[i % 6]) as char)
  }

  /** De-obfuscating an obfuscated token gives back the plaintext. */
  lemma DecodeObfuscated(plain: string)
    requires Obfuscatable(plain)
    ensures DecodeToken(Obfuscate(plain)) == Ok(plain)
  {
    var token := Obfuscate(plain);
    DecodeTokenMeaning(token);
    forall i | 0 <= i < |token|
      ensures IsScalarValue(token[i] as int - Key[i % 6])
    {
      assert token[i] as int - Key[i % 6] == plain[i] as int;
    }
    var decoded := DecodeToken(token).value;
    forall i | 0 <= i < |plain|
      ensures decoded[i] == plain[i]
    {
      assert decoded[i] as int == plain[i] as int;
    }
    assert decoded == plain;
  }

  /** Whether the header flag is still set after the decoded characters `p`
      have been written, starting from `header`. */
  predicate StillHeader(p: string, header: bool) {
    header && !HasDigit(p)
  }

  predicate HasDigit(p: string) {
    p != [] && (HasDigit(p[..|p| - 1]) || IsAsciiDigit(p[|p| - 1]))
  }

  /** What one decoded character becomes in the output. */
  function RepairChar(c: char, header: bool): string {
    if header && IsAsciiDigit(c) then ['.', c]
    else if c == '"' then ['\\', c]
    else [c]
  }

  /** The output written for a decoded token `plain`, with the header flag `header` on entry. */
  function Repair(plain: string, header: bool): string {
    if plain == [] then []
    else
      var init := plain[..|plain| - 1];
      Repair(init, header) + RepairChar(plain[|plain| - 1], StillHeader(init, header))
  }

  /** Flushing a token: the text written and the header flag afterwards. An
      empty buffer writes nothing and leaves the flag alone. */
  function Flush(token: string, header: bool): Result<(string, bool), Abort> {
    if token == [] then Ok(([], header))
    else
      var plain :- DecodeToken(token);
      Ok((Repair(plain, header), false))
  }

  /** The input without its NUL characters. */
  function Strip(s: string): string {
    if s == [] then []
    else (if s[0] == '\0' then [] else [s[0]]) + Strip(s[1..])
  }

  /** Stripping the input one character at a time. */
  lemma StripAt(buf: string, input: string, i: nat)
    requires i < |input|
    ensures buf + Strip(input[i..]) == buf + Strip([input[i]]) + Strip(input[i + 1..])
  {
    var s := input[i..];
    assert s[1..] == input[i + 1..];
    assert [input[i]][1..] == [];
  }

  /** Length of the token at the front of `s`: the index of its first delimiter, or `|s|`. */
  function TokenEnd(s: string): (k: nat)
    ensures k <= |s|
  {
    if s == [] || IsDelimiter(s[0]) then 0 else 1 + TokenEnd(s[1..])
  }

  /** The token at the front holds no delimiter and is followed by one, if anything. */
  lemma {:induction false} TokenEndMeaning(s: string)
    ensures forall j :: 0 <= j < TokenEnd(s) ==> !IsDelimiter(s[j])
    ensures TokenEnd(s) < |s| ==> IsDelimiter(s[TokenEnd(s)])
  {
    if s != [] && !IsDelimiter(s[0]) {
      TokenEndMeaning(s[1..]);
    }
  }

  lemma {:induction false} TokenEndAt(s: string, m: nat)
    requires m < |s| && IsDelimiter(s[m])
    requires forall j :: 0 <= j < m ==> !IsDelimiter(s[j])
    ensures TokenEnd(s) == m
  {
    if m > 0 {
      assert !IsDelimiter(s[0]);
      TokenEndAt(s[1..], m - 1);
    }
  }

  function Prepend(prefix: string, r: Result<string, Abort>): Result<string, Abort> {
    match r
    case Ok(rest) => Ok(prefix + rest)
    case Err(e) => Err(e)
  }

  /** Token-level decoding of NUL-free text: each token followed by a
      delimiter is flushed and the delimiter copied; a `[` sets the header flag;
      the last token, which no delimiter follows, is dropped. */
  function DecryptFrom(s: string, header: bool): Result<string, Abort>
    decreases |s|
  {
    var k := TokenEnd(s);
    if k == |s| then Ok([])
    else
      var flushed :- Flush(s[..k], header);
      Prepend(flushed.0 + [s[k]], DecryptFrom(s[k + 1..], s[k] == '[' || flushed.1))
  }

  /** What `decrypt` returns for `input`, or why it aborts. */
  function Decrypted(input: string): Result<string, Abort> {
    DecryptFrom(Strip(input), false)
  }

  /** A delimiter after a delimiter-free token flushes that token and is then copied through. */
  lemma FlushAtDelimiter(t: string, d: char, rest: string, header: bool)
    requires NoDelimiter(t) && IsDelimiter(d)
    ensures DecryptFrom(t + [d] + rest, header) ==
      match Flush(t, header)
      case Err(e) => Err(e)
      case Ok(f) => Prepend(f.0 + [d], DecryptFrom(rest, d == '[' || f.1))
  {
    var s := t + [d] + rest;
    TokenEndAt(s, |t|);
    assert s[..|t|] == t;
    assert s[|t| + 1..] == rest;
  }

  lemma PrependPrepend(a: string, b: string, r: Result<string, Abort>)
    ensures Prepend(a, Prepend(b, r)) == Prepend(a + b, r)
  {
    if r.Ok? {
      assert a + (b + r.value) == (a + b) + r.value;
    }
  }

  /** Decoding one more character of a token extends the decoded prefix, or fails. */
  lemma DecodeTokenSnoc(token: string, j: nat)
    requires j < |token| && DecodeToken(token[..j]).Ok?
    ensures DecodeToken(token[..j + 1]) ==
      match DecodeAt(token[j], j)
      case Err(e) => Err(e)
      case Ok(d) => Ok(DecodeToken(token[..j]).value + [d])
  {
    assert token[..j + 1][..j] == token[..j];
  }

  /** One more decoded character appends its repair to the output. */
  lemma RepairSnoc(plain: string, d: char, header: bool)
    ensures Repair(plain + [d], header) == Repair(plain, header) + RepairChar(d, StillHeader(plain, header))
    ensures StillHeader(plain + [d], header) == (StillHeader(plain, header) && !IsAsciiDigit(d))
  {
    assert (plain + [d])[..|plain|] == plain;
  }

  /** The step of the loop at a delimiter `c`, with `out` already written. */
  lemma DelimiterStep(out: string, buf: string, c: char, rest: string, header: bool)
    requires NoDelimiter(buf) && IsDelimiter(c)
    ensures Prepend(out, DecryptFrom(buf + [c] + rest, header)) ==
      match Flush(buf, header)
      case Err(e) => Err(e)
      case Ok(f) => Prepend(out + f.0 + [c], DecryptFrom(rest, c == '[' || f.1))
  {
    FlushAtDelimiter(buf, c, rest, header);
    match Flush(buf, header)
    case Err(e) =>
    case Ok(f) =>
      PrependPrepend(out, f.0 + [c], DecryptFrom(rest, c == '[' || f.1));
      assert out + (f.0 + [c]) == out + f.0 + [c];
  }

  /** A token that no delimiter follows produces nothing. */
  lemma DecryptFromUnterminated(t: string, header: bool)
    requires NoDelimiter(t)
    ensures DecryptFrom(t, header) == Ok([])
  {
    TokenEndMeaning(t);
  }

  /** Writes one decoded character: a `.` before the first digit of a header
      (which clears the flag), a backslash before a quote, then the character. */
  method Emit(output: string, header: bool, d: char) returns (output': string, header': bool)
    ensures output' == output + RepairChar(d, header)
    ensures header' == (header && !IsAsciiDigit(d))
  {
    output', header' := output, header;
    if header && IsAsciiDigit(d) {
      output' := output' + ['.'];
      header' := false;
    } else if d == '"' {
      output' := output' + ['\\'];
    }
    output' := output' + [d];
  }

  /** The flush of a non-empty buffer (the inner loop of the source): decodes
      each buffered character, writes its repair, and finally clears the
      header flag. Returns the text written and the new flag. */
  method FlushBuffer(buf: string, isHeader: bool) returns (r: Result<(string, bool), Abort>)
    requires buf != []
    ensures r == Flush(buf, isHeader)
  {
    var output: string := [];
    var header := isHeader;
    ghost var plain: string := [];
    var j := 0;
    while j < |buf|
      invariant 0 <= j <= |buf|
      invariant DecodeToken(buf[..j]) == Ok(plain)
      invariant output == Repair(plain, isHeader)
      invariant header == StillHeader(plain, isHeader)
    {
      DecodeTokenSnoc(buf, j);
      var decoded := DecodeAt(buf[j], j);
      if decoded.Err? {
        DecodeTokenFailsFromPrefix(buf, j + 1);
        return Err(decoded.error);
      }
      var d := decoded.value;
      RepairSnoc(plain, d, isHeader);
      output, header := Emit(output, header, d);
      plain := plain + [d];
      j := j + 1;
    }
    assert buf[..j] == buf;
    r := Ok((output, false));
  }

  /** Stripping a single character. */
  lemma StripSingle(c: char)
    ensures Strip([c]) == if c == '\0' then [] else [c]
  {
    assert [c][1..] == [];
  }

  /** A delimiter flushes the buffer and is copied; a `[` then sets the
      header flag and the buffer starts over empty. */
  method FeedDelimiter(output: string, buf: string, isHeader: bool, c: char, ghost rest: string)
    returns (r: Result<(string, bool), Abort>)
    requires NoDelimiter(buf) && IsDelimiter(c)
    ensures Prepend(output, DecryptFrom(buf + [c] + rest, isHeader)) ==
      match r
      case Err(e) => Err(e)
      case Ok(state) => Prepend(state.0, DecryptFrom(rest, state.1))
  {
    DelimiterStep(output, buf, c, rest, isHeader);
    var output', isHeader' := output, isHeader;
    if buf != [] {
      var flushed := FlushBuffer(buf, isHeader);
      if flushed.Err? {
        return Err(flushed.error);
      }
      output' := output' + flushed.value.0;
      isHeader' := flushed.value.1;
    } else {
      assert output + [] == output;
    }
    output' := output' + [c];
    if c == '[' {
      isHeader' := true;
    }
    r := Ok((output', isHeader'));
  }

  /** Before the loop nothing is written, nothing is buffered and all of the
      input is still to come. */
  lemma LoopEntry(input: string)
    ensures Decrypted(input) == Prepend([], DecryptFrom([] + Strip(input[0..]), false))
  {
    assert input[0..] == input;
    assert [] + Strip(input) == Strip(input);
    if Decrypted(input).Ok? {
      assert [] + Decrypted(input).value == Decrypted(input).value;
    }
  }

  /** After the loop the buffered token is dropped: the result is what has been written. */
  lemma LoopExit(output: string, buf: string, input: string, header: bool)
    requires NoDelimiter(buf)
    ensures Prepend(output, DecryptFrom(buf + Strip(input[|input|..]), header)) == Ok(output)
  {
    assert input[|input|..] == [];
    assert buf + Strip([]) == buf;
    DecryptFromUnterminated(buf, header);
    assert output + [] == output;
  }

  /** One iteration of the loop of the source: a delimiter flushes the buffer
      and is copied, a NUL is skipped, any other character is buffered.
      Whatever text `rest` is still to come, the step leaves the result of
      decoding unchanged. */
  method Feed(output: string, buf: string, isHeader: bool, c: char, ghost rest: string)
    returns (r: Result<(string, string, bool), Abort>)
    requires NoDelimiter(buf)
    ensures r.Ok? ==> NoDelimiter(r.value.1)
    ensures Prepend(output, DecryptFrom(buf + Strip([c]) + rest, isHeader)) ==
      match r
      case Err(e) => Err(e)
      case Ok(state) => Prepend(state.0, DecryptFrom(state.1 + rest, state.2))
  {
    StripSingle(c);
    if IsDelimiter(c) {
      var flushed := FeedDelimiter(output, buf, isHeader, c, rest);
      if flushed.Err? {
        return Err(flushed.error);
      }
      assert [] + rest == rest;
      r := Ok((flushed.value.0, [], flushed.value.1));
    } else if c == '\0' {
      assert buf + [] == buf;
      r := Ok((output, buf, isHeader));
    } else {
      NoDelimiterAppend(buf, [c]);
      r := Ok((output, buf + [c], isHeader));
    }
  }

  /** The de-obfuscation loop of the source. `output`, `buf` and `isHeader`
      are its three pieces of state. */
  method Decrypt(input: string) returns (r: Result<string, Abort>)
    ensures r == Decrypted(input)
  {
    var output: string := [];
    var buf: string := [];
    var isHeader := false;
    var i := 0;
    ghost var spec := Decrypted(input);
    LoopEntry(input);
    while i < |input|
      invariant 0 <= i <= |input|
      invariant NoDelimiter(buf)
      invariant spec == Prepend(output, DecryptFrom(buf + Strip(input[i..]), isHeader))
    {
      ghost var rest := Strip(input[i + 1..]);
      StripAt(buf, input, i);
      var next := Feed(output, buf, isHeader, input[i], rest);
      if next.Err? {
        return Err(next.error);
      }
      output, buf, isHeader := next.value.0, next.value.1, next.value.2;
      i := i + 1;
    }
    LoopExit(output, buf, input, isHeader);
    r := Ok(output);
  }

  // ---------------------------------------------------------------------
  // Properties of the repairs applied during a flush

  lemma {:induction false} HasDigitAppend(x: string, y: string)
    ensures HasDigit(x + y) == (HasDigit(x) || HasDigit(y))
    decreases |y|
  {
    if y == [] {
      assert x + y == x;
    } else {
      var y' := y[..|y| - 1];
      assert (x + y)[..|x + y| - 1] == x + y';
      HasDigitAppend(x, y');
    }
  }

  /** Repairing two pieces of decoded text one after the other: the second
      starts with the header flag the first leaves behind. */
  lemma {:induction false} RepairAppend(x: string, y: string, header: bool)
    ensures Repair(x + y, header) == Repair(x, header) + Repair(y, StillHeader(x, header))
    decreases |y|
  {
    if y == [] {
      assert x + y == x;
    } else {
      var y', c := y[..|y| - 1], y[|y| - 1];
      var h' := StillHeader(x, header);
      calc {
        Repair(x + y, header);
        { assert (x + y)[..|x + y| - 1] == x + y'; assert (x + y)[|x + y| - 1] == c; }
        Repair(x + y', header) + RepairChar(c, StillHeader(x + y', header));
        { RepairAppend(x, y', header); HasDigitAppend(x, y'); }
        Repair(x, header) + Repair(y', h') + RepairChar(c, StillHeader(y', h'));
        Repair(x, header) + (Repair(y', h') + RepairChar(c, StillHeader(y', h')));
      }
    }
  }

  /** Every `"` in the repaired text, decoded or not, directly follows a backslash. */
  lemma {:induction false} QuotesEscaped(plain: string, header: bool)
    ensures forall k :: 0 <= k < |Repair(plain, header)| && Repair(plain, header)[k] == '"' ==>
      0 < k && Repair(plain, header)[k - 1] == '\\'
  {
    if plain != [] {
      var init := plain[..|plain| - 1];
      QuotesEscaped(init, header);
      var r0 := Repair(init, header);
      var piece := RepairChar(plain[|plain| - 1], StillHeader(init, header));
      var r := Repair(plain, header);
      assert r == r0 + piece;
      var c := plain[|plain| - 1];
      forall k | 0 <= k < |r| && r[k] == '"'
        ensures 0 < k && r[k - 1] == '\\'
      {
        if k < |r0| {
          assert r0[k] == '"';
          assert 0 < k && r0[k - 1] == '\\';
          assert r[k - 1] == r0[k - 1];
        } else {
          assert piece[k - |r0|] == '"';
          assert c == '"';
          assert piece == ['\\', '"'];
          assert k == |r0| + 1;
        }
      }
    }
  }

  /** Without the header flag, or without any digit, no `.` is inserted:
      the text is only quote-escaped. */
  lemma {:induction false} NoDotWithoutHeader(plain: string, header: bool)
    requires !header || !HasDigit(plain)
    ensures Repair(plain, header) == Repair(plain, false)
  {
    if plain != [] {
      var init := plain[..|plain| - 1];
      if header {
        assert !HasDigit(init);
      }
      NoDotWithoutHeader(init, header);
    }
  }

  /** Repairing from the front: the first character, then the rest with the
      flag that character leaves behind. */
  lemma RepairCons(p: string, header: bool)
    requires p != []
    ensures Repair(p, header) == RepairChar(p[0], header) + Repair(p[1..], header && !IsAsciiDigit(p[0]))
  {
    assert p == p[..1] + p[1..];
    assert p[..1] == [p[0]];
    RepairSingle(p[0], header);
    RepairAppend(p[..1], p[1..], header);
  }

  /** A header whose first decoded character is a digit gets a `.` in front. */
  lemma RepairFromDigit(p: string)
    requires p != [] && IsAsciiDigit(p[0])
    ensures Repair(p, true) == ['.'] + Repair(p, false)
  {
    var tail := Repair(p[1..], false);
    assert Repair(p, true) == ['.', p[0]] + tail by {
      RepairCons(p, true);
    }
    assert Repair(p, false) == [p[0]] + tail by {
      RepairCons(p, false);
    }
    assert ['.', p[0]] + tail == ['.'] + ([p[0]] + tail);
  }

  lemma RepairSingle(c: char, header: bool)
    ensures Repair([c], header) == RepairChar(c, header)
    ensures HasDigit([c]) == IsAsciiDigit(c)
  {
    assert [c][..0] == [];
  }

  /** With the header flag set, exactly one `.` is inserted, directly before
      the first decoded digit; everything else is only quote-escaped. */
  lemma DotBeforeFirstDigit(plain: string, m: nat)
    requires m < |plain| && IsAsciiDigit(plain[m]) && !HasDigit(plain[..m])
    ensures Repair(plain, true) == Repair(plain[..m], false) + ['.'] + Repair(plain[m..], false)
  {
    var before, rest := plain[..m], plain[m..];
    var left, right := Repair(before, false), Repair(rest, false);
    assert Repair(plain, true) == Repair(before, true) + Repair(rest, true) by {
      assert plain == before + rest;
      RepairAppend(before, rest, true);
      assert StillHeader(before, true);
    }
    assert Repair(before, true) == left by {
      NoDotWithoutHeader(before, true);
    }
    assert Repair(rest, true) == ['.'] + right by {
      RepairFromDigit(rest);
    }
    assert left + (['.'] + right) == left + ['.'] + right;
  }

  // ---------------------------------------------------------------------
  // Properties of the whole pass

  lemma {:induction false} StripAppend(a: string, b: string)
    ensures Strip(a + b) == Strip(a) + Strip(b)
  {
    if a == [] {
      assert a + b == b;
    } else {
      assert (a + b)[1..] == a[1..] + b;
      StripAppend(a[1..], b);
    }
  }

  /** A NUL anywhere in the input changes nothing: it is not copied and it
      does not advance the key position of the characters around it. */
  lemma NulIgnored(x: string, y: string)
    ensures Decrypted(x + ['\0'] + y) == Decrypted(x + y)
  {
    StripAppend(x + ['\0'], y);
    StripAppend(x, ['\0']);
    StripAppend(x, y);
    assert Strip(['\0']) == [] by {
      assert ['\0'][1..] == [];
    }
    assert Strip(x) + [] == Strip(x);
  }

  lemma {:induction false} NoDelimiterStrip(t: string)
    requires NoDelimiter(t)
    ensures NoDelimiter(Strip(t))
  {
    if t != [] {
      NoDelimiterStrip(t[1..]);
    }
  }

  lemma NoDelimiterAppend(s: string, t: string)
    requires NoDelimiter(s) && NoDelimiter(t)
    ensures NoDelimiter(s + t)
  {
    assert forall j :: 0 <= j < |s + t| ==> (s + t)[j] == if j < |s| then s[j] else t[j - |s|];
  }

  lemma {:induction false} DecryptFromIgnoresTail(s: string, t: string, header: bool)
    requires NoDelimiter(t)
    ensures DecryptFrom(s + t, header) == DecryptFrom(s, header)
    decreases |s|
  {
    TokenEndMeaning(s);
    var k := TokenEnd(s);
    if k == |s| {
      assert NoDelimiter(s);
      NoDelimiterAppend(s, t);
      DecryptFromUnterminated(s, header);
      DecryptFromUnterminated(s + t, header);
    } else {
      var u, d, rest := s[..k], s[k], s[k + 1..];
      assert s == u + [d] + rest;
      assert s + t == u + [d] + (rest + t);
      FlushAtDelimiter(u, d, rest, header);
      FlushAtDelimiter(u, d, rest + t, header);
      match Flush(u, header)
      case Err(_) =>
      case Ok(f) => DecryptFromIgnoresTail(rest, t, d == '[' || f.1);
    }
  }

  /** Characters after the last delimiter are never flushed, so they never
      reach the output and cannot make the run abort. */
  lemma TrailingTokenDropped(x: string, t: string)
    requires NoDelimiter(t)
    ensures Decrypted(x + t) == Decrypted(x)
  {
    StripAppend(x, t);
    NoDelimiterStrip(t);
    DecryptFromIgnoresTail(Strip(x), t, false);
    DecryptFromIgnoresTail(Strip(x), Strip(t), false);
  }

  predicate AllDelimiters(s: string) {
    forall k :: 0 <= k < |s| ==> IsDelimiter(s[k])
  }

  lemma {:induction false} DecryptFromDelimiters(s: string, header: bool)
    requires AllDelimiters(s)
    ensures DecryptFrom(s, header) == Ok(s)
    decreases |s|
  {
    if s != [] {
      FlushAtDelimiter([], s[0], s[1..], header);
      assert [] + [s[0]] + s[1..] == s;
      DecryptFromDelimiters(s[1..], s[0] == '[' || header);
      assert [] + [s[0]] + s[1..] == s;
    }
  }

  lemma {:induction false} StripDelimiters(input: string)
    requires forall k :: 0 <= k < |input| ==> IsDelimiter(input[k]) || input[k] == '\0'
    ensures AllDelimiters(Strip(input))
  {
    if input != [] {
      StripDelimiters(input[1..]);
    }
  }

  /** An input made only of delimiters and NULs comes out unchanged, NULs removed. */
  lemma DelimitersOnly(input: string)
    requires forall k :: 0 <= k < |input| ==> IsDelimiter(input[k]) || input[k] == '\0'
    ensures Decrypted(input) == Ok(Strip(input))
  {
    StripDelimiters(input);
    DecryptFromDelimiters(Strip(input), false);
  }

  /** The delimiters of a text, in order. */
  function Delimiters(s: string): string {
    if s == [] then []
    else (if IsDelimiter(s[0]) then [s[0]] else []) + Delimiters(s[1..])
  }

  predicate IsSubsequence(a: string, b: string)
    decreases |b|
  {
    if a == [] then true
    else if b == [] then false
    else (a[0] == b[0] && IsSubsequence(a[1..], b[1..])) || IsSubsequence(a, b[1..])
  }

  lemma {:induction false} SubsequenceOfLonger(a: string, x: string, b: string)
    requires IsSubsequence(a, b)
    ensures IsSubsequence(a, x + b)
    decreases |x|
  {
    if x == [] {
      assert x + b == b;
    } else if a != [] {
      SubsequenceOfLonger(a, x[1..], b);
      assert (x + b)[1..] == x[1..] + b;
      assert IsSubsequence(a, (x + b)[1..]);
    }
  }

  lemma SubsequenceAfterText(d: char, ds: string, text: string, out: string)
    requires IsSubsequence(ds, out)
    ensures IsSubsequence([d] + ds, text + [d] + out)
  {
    assert IsSubsequence([d] + ds, [d] + out) by {
      assert ([d] + out)[1..] == out;
      assert ([d] + ds)[1..] == ds;
    }
    SubsequenceOfLonger([d] + ds, text, [d] + out);
    assert text + [d] + out == text + ([d] + out);
  }

  lemma {:induction false} DelimitersSkip(u: string, r: string)
    requires NoDelimiter(u)
    ensures Delimiters(u + r) == Delimiters(r)
  {
    if u == [] {
      assert u + r == r;
    } else {
      assert (u + r)[1..] == u[1..] + r;
      DelimitersSkip(u[1..], r);
      assert [] + Delimiters(u[1..] + r) == Delimiters(u[1..] + r);
    }
  }

  lemma {:induction false} DelimitersStrip(s: string)
    ensures Delimiters(Strip(s)) == Delimiters(s)
  {
    if s != [] {
      DelimitersStrip(s[1..]);
      var head := if s[0] == '\0' then [] else [s[0]];
      assert Strip(s) == head + Strip(s[1..]);
      if head != [] {
        assert (head + Strip(s[1..]))[1..] == Strip(s[1..]);
      } else {
        assert head + Strip(s[1..]) == Strip(s[1..]);
      }
    }
  }

  /** The first delimiter of a text is the one that ends its first token. */
  lemma {:induction false} DelimitersAtTokenEnd(s: string)
    requires TokenEnd(s) < |s|
    ensures Delimiters(s) == [s[TokenEnd(s)]] + Delimiters(s[TokenEnd(s) + 1..])
  {
    if !IsDelimiter(s[0]) {
      var k := TokenEnd(s[1..]);
      DelimitersAtTokenEnd(s[1..]);
      assert s[1..][k] == s[k + 1];
      assert s[1..][k + 1..] == s[k + 2..];
      assert [] + Delimiters(s[1..]) == Delimiters(s[1..]);
    }
  }

  lemma {:induction false} DelimitersKept(s: string, header: bool)
    requires DecryptFrom(s, header).Ok?
    ensures IsSubsequence(Delimiters(s), DecryptFrom(s, header).value)
    decreases |s|
  {
    var k := TokenEnd(s);
    if k == |s| {
      TokenEndMeaning(s);
      assert NoDelimiter(s);
      DelimitersSkip(s, []);
      assert s + [] == s;
    } else {
      var f := Flush(s[..k], header).value;
      var h' := s[k] == '[' || f.1;
      DelimitersAtTokenEnd(s);
      DelimitersKept(s[k + 1..], h');
      SubsequenceAfterText(s[k], Delimiters(s[k + 1..]), f.0, DecryptFrom(s[k + 1..], h').value);
    }
  }

  /** Every delimiter of the input reaches the output unchanged and in input order. */
  lemma DelimitersInOrder(input: string)
    requires Decrypted(input).Ok?
    ensures IsSubsequence(Delimiters(input), Decrypted(input).value)
  {
    DelimitersKept(Strip(input), false);
    DelimitersStrip(input);
  }

  /** After `[`, a delimiter that follows at once (as in `[]`) flushes an
      empty buffer, so the header flag is still set for the next token. */
  lemma HeaderSurvivesEmptyToken(d: char, s: string, header: bool)
    requires IsDelimiter(d) && d != '['
    ensures DecryptFrom(['[', d] + s, header) == Prepend(['[', d], DecryptFrom(s, true))
  {
    FlushAtDelimiter([], '[', [d] + s, header);
    assert [] + ['['] + ([d] + s) == ['[', d] + s;
    FlushAtDelimiter([], d, s, true);
    assert [] + [d] + s == [d] + s;
    assert [] + ['['] == ['['] && [] + [d] == [d];
    PrependPrepend(['['], [d], DecryptFrom(s, true));
    assert ['['] + [d] == ['[', d];
  }

  /** Flushing a non-empty token always clears the header flag, whether or not a digit fired it. */
  lemma HeaderClearedByToken(t: string, d: char, s: string, header: bool)
    requires t != [] && NoDelimiter(t) && DecodeToken(t).Ok?
    requires IsDelimiter(d) && d != '['
    ensures DecryptFrom(t + [d] + s, header) ==
      Prepend(Repair(DecodeToken(t).value, header) + [d], DecryptFrom(s, false))
  {
    FlushAtDelimiter(t, d, s, header);
  }
}
