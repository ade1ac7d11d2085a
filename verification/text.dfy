/**
 * The few Python string operations the hex converters rely on:
 * `str.strip()`, `str.split("\n")`, `str.split()` and `str.join`.
 * Whitespace is the ASCII part of Python's `str.isspace`.
 */
module Text {

  predicate IsSpace(c: char)
  {
    c == ' ' || c == '\t' || c == '\n' || c == '\r' || c == '\U{000B}' || c == '\U{000C}'
    || ('\U{001C}' <= c <= '\U{001F}')
  }

  predicate NoSpace(s: string)
  {
    forall i :: 0 <= i < |s| ==> !IsSpace(s[i])
  }

  /** `s.lstrip()`: the suffix of `s` after its leading whitespace. */
  function StripLeft(s: string): (t: string)
    ensures |t| <= |s| && t == s[|s| - |t|..]
    ensures t == [] || !IsSpace(t[0])
    ensures forall i :: 0 <= i < |s| - |t| ==> IsSpace(s[i])
  {
    if s != [] && IsSpace(s[0]) then StripLeft(s[1..]) else s
  }

  /** `s.rstrip()`: the prefix of `s` before its trailing whitespace. */
  function StripRight(s: string): (t: string)
    ensures |t| <= |s| && t == s[..|t|]
    ensures t == [] || !IsSpace(t[|t| - 1])
    ensures forall i :: |t| <= i < |s| ==> IsSpace(s[i])
  {
    if s != [] && IsSpace(s[|s| - 1]) then StripRight(s[..|s| - 1]) else s
  }

  /** `s.strip()`: leading whitespace removed by `StripLeft`, then trailing whitespace by
      `StripRight`; the result neither starts nor ends with whitespace. */
  function Strip(s: string): (t: string)
    ensures t == [] || (!IsSpace(t[0]) && !IsSpace(t[|t| - 1]))
  {
    StripRight(StripLeft(s))
  }

  /** `s.split(sep)` for a one-character separator: always at least one field, fields free
      of `sep`, and joining the fields with `sep` gives `s` back. */
  function Split(s: string, sep: char): (fields: seq<string>)
    ensures |fields| >= 1
    ensures forall k, i :: 0 <= k < |fields| && 0 <= i < |fields[k]| ==> fields[k][i] != sep
    ensures Join(fields, [sep]) == s
  {
    SplitFrom(s, sep, [])
  }

  function SplitFrom(s: string, sep: char, field: string): (fields: seq<string>)
    requires forall i :: 0 <= i < |field| ==> field[i] != sep
    ensures |fields| >= 1
    ensures forall k, i :: 0 <= k < |fields| && 0 <= i < |fields[k]| ==> fields[k][i] != sep
    ensures Join(fields, [sep]) == field + s
  {
    if s == [] then
      assert field + s == field;
      [field]
    else if s[0] == sep then
      var rest := SplitFrom(s[1..], sep, []);
      assert ([field] + rest)[1..] == rest;
      assert field + s == field + [sep] + ([] + s[1..]);
      [field] + rest
    else
      assert field + s == field + [s[0]] + s[1..];
      SplitFrom(s[1..], sep, field + [s[0]])
  }

  /** The characters of `s` that are not whitespace, in order. */
  function NonSpace(s: string): (t: string)
  {
    if s == [] then [] else (if IsSpace(s[0]) then [] else [s[0]]) + NonSpace(s[1..])
  }

  /** The parts written one after another. */
  function Concat(parts: seq<string>): (t: string)
  {
    if parts == [] then [] else parts[0] + Concat(parts[1..])
  }

  lemma {:induction false} ConcatAppend(a: seq<string>, b: seq<string>)
    ensures Concat(a + b) == Concat(a) + Concat(b)
  {
    if a != [] {
      ConcatAppend(a[1..], b);
      assert (a + b)[1..] == a[1..] + b;
    } else {
      assert a + b == b;
    }
  }

  /** `s.split()`: the maximal runs of non-whitespace characters, in order; written one after
      another they are exactly the non-whitespace characters of `s`. */
  function Tokens(s: string): (tokens: seq<string>)
    ensures forall k :: 0 <= k < |tokens| ==> tokens[k] != [] && NoSpace(tokens[k])
    ensures Concat(tokens) == NonSpace(s)
  {
    TokensFrom(s, [])
  }

  function TokensFrom(s: string, token: string): (tokens: seq<string>)
    requires NoSpace(token)
    ensures forall k :: 0 <= k < |tokens| ==> tokens[k] != [] && NoSpace(tokens[k])
    ensures Concat(tokens) == token + NonSpace(s)
  {
    if s == [] then
      assert token + NonSpace(s) == token;
      if token == [] then [] else [token]
    else if IsSpace(s[0]) then
      var head: seq<string> := if token == [] then [] else [token];
      var rest := TokensFrom(s[1..], []);
      ConcatAppend(head, rest);
      assert Concat(head) == token;
      head + rest
    else
      assert token + NonSpace(s) == token + [s[0]] + NonSpace(s[1..]);
      TokensFrom(s[1..], token + [s[0]])
  }

  /** Tokens are maximal runs: splitting whitespace-free, non-empty tokens joined by single
      spaces gives exactly those tokens back, so no token is ever cut inside a run. */
  lemma {:induction false} TokensJoin(ts: seq<string>)
    requires forall k :: 0 <= k < |ts| ==> ts[k] != [] && NoSpace(ts[k])
    ensures Tokens(Join(ts, " ")) == ts
  {
    if ts != [] {
      TokensFromJoin(ts, []);
      assert [] + ts[0] == ts[0];
      assert [ts[0]] + ts[1..] == ts;
    }
  }

  lemma {:induction false} TokensFromJoin(ts: seq<string>, token: string)
    requires ts != []
    requires NoSpace(token)
    requires forall k :: 0 <= k < |ts| ==> ts[k] != [] && NoSpace(ts[k])
    ensures TokensFrom(Join(ts, " "), token) == [token + ts[0]] + ts[1..]
  {
    var p := ts[0];
    if |ts| == 1 {
      assert Join(ts, " ") == p + [];
      TokensFromWord(p, [], token);
      assert token + p != [];
    } else {
      var rest := Join(ts[1..], " ");
      assert Join(ts, " ") == p + (" " + rest);
      TokensFromWord(p, " " + rest, token);
      assert (" " + rest)[1..] == rest;
      assert token + p != [];
      TokensFromJoin(ts[1..], []);
      assert [] + ts[1] == ts[1];
      assert [ts[1]] + ts[1..][1..] == ts[1..];
    }
  }

  /** Whitespace-free text is accumulated into the current token. */
  lemma {:induction false} TokensFromWord(p: string, rest: string, token: string)
    requires NoSpace(token) && NoSpace(p)
    ensures TokensFrom(p + rest, token) == TokensFrom(rest, token + p)
  {
    if p != [] {
      assert (p + rest)[0] == p[0];
      assert (p + rest)[1..] == p[1..] + rest;
      TokensFromWord(p[1..], rest, token + [p[0]]);
      assert token + [p[0]] + p[1..] == token + p;
    } else {
      assert p + rest == rest;
      assert token + p == token;
    }
  }

  /** `sep.join(parts)`: the parts in order with one `sep` between neighbours. */
  function Join(parts: seq<string>, sep: string): (r: string)
    ensures parts == [] ==> r == []
    ensures parts != [] ==> |r| == |Concat(parts)| + (|parts| - 1) * |sep|
  {
    if parts == [] then []
    else if |parts| == 1 then
      assert Concat(parts) == parts[0] + [];
      parts[0]
    else
      var rest := Join(parts[1..], sep);
      assert (|parts| - 1) * |sep| == |sep| + (|parts| - 2) * |sep|;
      parts[0] + sep + rest
  }

  /** No separator inside any field means splitting the joined text gives the fields back. */
  lemma {:induction false} SplitJoin(parts: seq<string>, sep: char)
    requires |parts| >= 1
    requires forall k, i :: 0 <= k < |parts| && 0 <= i < |parts[k]| ==> parts[k][i] != sep
    ensures Split(Join(parts, [sep]), sep) == parts
  {
    SplitFromJoin(parts, sep, []);
    assert [] + parts[0] == parts[0];
  }

  lemma {:induction false} SplitFromJoin(parts: seq<string>, sep: char, field: string)
    requires |parts| >= 1
    requires forall i :: 0 <= i < |field| ==> field[i] != sep
    requires forall k, i :: 0 <= k < |parts| && 0 <= i < |parts[k]| ==> parts[k][i] != sep
    ensures SplitFrom(Join(parts, [sep]), sep, field) == [field + parts[0]] + parts[1..]
  {
    var p := parts[0];
    if |parts| == 1 {
      assert Join(parts, [sep]) == p + [];
      SplitFromField(p, sep, field, []);
    } else {
      var rest := Join(parts[1..], [sep]);
      assert Join(parts, [sep]) == p + ([sep] + rest);
      SplitFromField(p, sep, field, [sep] + rest);
      assert ([sep] + rest)[1..] == rest;
      SplitFromJoin(parts[1..], sep, []);
      assert [] + parts[1][..] == parts[1];
      assert [parts[1]] + parts[1..][1..] == parts[1..];
    }
  }

  /** Separator-free text is accumulated into the current field. */
  lemma {:induction false} SplitFromField(p: string, sep: char, field: string, rest: string)
    requires forall i :: 0 <= i < |field| ==> field[i] != sep
    requires forall i :: 0 <= i < |p| ==> p[i] != sep
    ensures SplitFrom(p + rest, sep, field) == SplitFrom(rest, sep, field + p)
  {
    if p != [] {
      assert (p + rest)[0] == p[0];
      assert (p + rest)[1..] == p[1..] + rest;
      SplitFromField(p[1..], sep, field + [p[0]], rest);
      assert field + [p[0]] + p[1..] == field + p;
    } else {
      assert p + rest == rest;
      assert field + p == field;
    }
  }

  /** Each line followed by a newline, as a file written line by line. */
  function Terminated(lines: seq<string>): (text: string)
  {
    if lines == [] then [] else lines[0] + "\n" + Terminated(lines[1..])
  }

  /** `"\n".join(lines) + "\n"` is the same text as writing each line with its newline. */
  lemma {:induction false} JoinTerminated(lines: seq<string>)
    requires lines != []
    ensures Join(lines, "\n") + "\n" == Terminated(lines)
  {
    if |lines| > 1 {
      JoinTerminated(lines[1..]);
    }
  }

  /** Splitting newline-terminated lines gives the lines and one final empty field. */
  lemma {:induction false} SplitTerminated(lines: seq<string>)
    requires forall k, i :: 0 <= k < |lines| && 0 <= i < |lines[k]| ==> lines[k][i] != '\n'
    ensures Split(Terminated(lines), '\n') == lines + [""]
  {
    TerminatedIsJoin(lines);
    SplitJoin(lines + [""], '\n');
  }

  lemma {:induction false} TerminatedIsJoin(lines: seq<string>)
    ensures Terminated(lines) == Join(lines + [""], "\n")
  {
    if lines != [] {
      TerminatedIsJoin(lines[1..]);
      assert (lines + [""])[1..] == lines[1..] + [""];
    }
  }
}
