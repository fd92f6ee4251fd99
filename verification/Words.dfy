/** Splitting text at a separator and joining it again (`str::split`, `slice::join`). */
module Words {
  import opened Bytes

  function Split(s: Text, sep: byte): (parts: seq<Text>)
    ensures |parts| > 0 && Join(parts, sep) == s
    ensures forall p :: p in parts ==> sep !in p
    decreases |s|
  {
    var i := Find(s, sep);
    if i == |s| then assert s[..i] == s; [s]
    else
      var rest := Split(s[i + 1..], sep);
      assert s == s[..i] + [sep] + s[i + 1..];
      [s[..i]] + rest
  }

  function Join(parts: seq<Text>, sep: byte): Text {
    if parts == [] then []
    else if |parts| == 1 then parts[0]
    else parts[0] + [sep] + Join(parts[1..], sep)
  }

  /** `Split` inverts `Join` on parts that hold no separator. */
  lemma {:induction false} SplitJoin(parts: seq<Text>, sep: byte)
    requires |parts| > 0 && forall p :: p in parts ==> sep !in p
    ensures Split(Join(parts, sep), sep) == parts
  {
    if |parts| == 1 {
      FindAt(parts[0], sep, []);
      assert parts[0][..|parts[0]|] == parts[0];
    } else {
      var rest := Join(parts[1..], sep);
      var whole := parts[0] + [sep] + rest;
      FindAt(parts[0], sep, rest);
      assert whole[..|parts[0]|] == parts[0] && whole[|parts[0]| + 1..] == rest;
      SplitJoin(parts[1..], sep);
    }
  }

  /** `Split` cuts at the first separator. */
  lemma SplitFirst(word: Text, rest: Text, sep: byte)
    requires sep !in word
    ensures Split(word + [sep] + rest, sep) == [word] + Split(rest, sep)
  {
    var s := word + [sep] + rest;
    FindAt(word, sep, rest);
    assert s[..|word|] == word && s[|word| + 1..] == rest;
  }

  lemma SplitLine(line: Text, sep: byte)
    requires sep !in line
    ensures Split(line, sep) == [line]
  {
    FindAt(line, sep, []);
    assert line[..|line|] == line;
  }

  lemma ConsConcat(word: Text, x: seq<Text>, y: seq<Text>)
    ensures [word] + (x + y) == [word] + x + y
  {
  }

  lemma FirstSeparator(word: Text, rest: Text, b: Text, sep: byte)
    ensures word + [sep] + rest + [sep] + b == word + [sep] + (rest + [sep] + b)
  {
  }

  lemma CutAtFirst(a: Text, sep: byte) returns (word: Text, rest: Text)
    requires sep in a
    ensures a == word + [sep] + rest && sep !in word
  {
    var i := Find(a, sep);
    word, rest := a[..i], a[i + 1..];
  }

  /** ... and so at every separator. */
  lemma {:induction false} SplitConcat(a: Text, b: Text, sep: byte)
    ensures Split(a + [sep] + b, sep) == Split(a, sep) + Split(b, sep)
    decreases |a|
  {
    if sep !in a {
      SplitLine(a, sep);
      SplitFirst(a, b, sep);
    } else {
      var word, rest := CutAtFirst(a, sep);
      FirstSeparator(word, rest, b, sep);
      SplitFirst(word, rest, sep);
      SplitFirst(word, rest + [sep] + b, sep);
      SplitConcat(rest, b, sep);
      ConsConcat(word, Split(rest, sep), Split(b, sep));
    }
  }
}
