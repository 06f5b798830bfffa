/** `ResponseValidator`: the structure string is re-read at every step of the
    descent into the value, exactly as the Python methods do it. Each `for`
    loop that raises on the first failure is a recursive function returning
    the first outcome that is not `Ok`. */
module Validator {
  import opened Wrappers
  import opened Text
  import opened JsonValues
  import opened Outcomes
  import opened LevelSplit

  /** Termination measure of the functions that carry a remainder `next`:
      below every level at least as long, and 0 when there is none. */
  function Rank(next: string): nat
  {
    if next == "" then 0 else 2 * |next| + 2
  }

  /** `validate(structure, response)`: `None` as structure means no check. */
  function Validate(structure: Option<string>, response: Json): (r: Outcome)
    ensures structure.None? ==> r == Ok
    ensures structure.Some? && response == JNull ==> r == BadFormat(EmptyResponse)
    ensures structure == Some("") ==> (r == Ok <==> response == JObj([]))
  {
    match structure
    case None => Ok
    case Some(s) =>
      if response == JNull then BadFormat(EmptyResponse)
      else Level(s, response)
  }

  /** `_validate_level`: the empty level demands the empty dict; any other
      level is split into paths that must all hold. */
  function Level(level: string, v: Json): (r: Outcome)
    ensures level == "" ==> (r == Ok <==> v == JObj([]))
    ensures level == "" && r != Ok ==> r == BadFormat(NotEmptyDict(v))
    decreases 2 * |level| + 1, 4, 0, 0
  {
    if level == "" then
      if v != JObj([]) then BadFormat(NotEmptyDict(v)) else Ok
    else
      match ParseLevel(level)
      case Failure(o) => o
      case Success(paths) => Paths(level, paths, v)
  }

  /** The loop over the paths of a level: the first failing path decides.
      The ghost `level` the paths were parsed from is only the measure that
      bounds each path for termination. */
  function Paths(ghost level: string, paths: seq<string>, v: Json): Outcome
    requires forall k :: 0 <= k < |paths| ==> |paths[k]| <= |level|
    decreases 2 * |level| + 1, 3, 0, |paths|
  {
    if paths == [] then Ok
    else
      var o := Path(paths[0], v);
      if o != Ok then o else Paths(level, paths[1..], v)
  }

  /** The key part of a path: the text before its first `>`, stripped. */
  function PathKey(path: string): string
  {
    match Find(path, '>')
    case Some(sep) => Strip(path[..sep])
    case None => Strip(path)
  }

  /** The remainder of a path: the text after its first `>`, stripped; ""
      stands for Python's `None` when there is no `>`. */
  function PathNext(path: string): (r: string)
    ensures |r| < |path| || r == ""
  {
    match Find(path, '>')
    case Some(sep) => Strip(path[sep + 1..])
    case None => ""
  }

  /** One path of a level: `*` checks for a dict, an empty key fans out over
      every key of the dict, anything else is a key step. */
  function Path(path: string, v: Json): Outcome
    decreases 2 * |path| + 1, 2, 0, 0
  {
    var key, next := PathKey(path), PathNext(path);
    if key == "*" then
      if !v.JObj? then BadFormat(NotADict(v)) else Ok
    else if key == "" then
      if !v.JObj? then Crash(NoKeys(v)) else FanOut(v.fields, next, v)
    else Key(key, next, v)
  }

  /** The fan-out of a path that starts with `>`: each key of the dict in
      turn is read as a key of the grammar and checked, with the same
      remainder, against the whole dict; the first failure decides. */
  function FanOut(entries: seq<(string, Json)>, next: string, dict: Json): Outcome
    decreases Rank(next), 8, 0, |entries|
  {
    if entries == [] then Ok
    else
      var o := Key(entries[0].0, next, dict);
      if o != Ok then o else FanOut(entries[1..], next, dict)
  }

  /** The pieces of a key split at `[`, each stripped. */
  function KeyParts(key: string): (r: seq<string>)
    ensures |r| >= 1
  {
    StripAll(SplitOn(key, '['))
  }

  /** The array tokens of accessor pieces: each piece without its last
      character, the closing `]`. */
  function Tokens(pieces: seq<string>): seq<string>
  {
    seq(|pieces|, k requires 0 <= k < |pieces| => DropLast(pieces[k]))
  }

  /** `_validate_key`: a named key (optional when it starts with `?`) is
      looked up in the dict; an empty name keeps the current value. The
      array tokens, or else the remainder, apply to what was found. */
  function Key(key: string, next: string, v: Json): Outcome
    decreases Rank(next), 7, 0, 0
  {
    var parts := KeyParts(key);
    var name := parts[0];
    var optional := name != "" && name[0] == '?';
    var bare := if optional then name[1..] else name;
    if name != "" && !v.JObj? then BadFormat(NotADict(v))
    else if name != "" && Lookup(v.fields, bare).None? then
      if optional then Ok else BadFormat(MissingKey(bare, v))
    else
      var sub := if name != "" then Lookup(v.fields, bare).value else v;
      if |parts| > 1 then Array(Tokens(parts[1..]), next, sub)
      else if next != "" then Level(next, sub)
      else Ok
  }

  /** `_validate_array`: one token at a time, then the remainder. */
  function Array(tokens: seq<string>, next: string, v: Json): Outcome
    decreases Rank(next), 6, |tokens|, 0
  {
    if tokens == [] then
      if next != "" then Level(next, v) else Ok
    else if !v.JArr? then BadFormat(NotAnArray(v))
    else
      var t := tokens[0];
      if IsDigits(t) then
        var idx := ParseNat(t);
        if |v.items| <= idx then BadFormat(IndexOutOfRange(v, idx))
        else Array(tokens[1..], next, v.items[idx])
      else if t == "*" then Elements(v.items, tokens[1..], next)
      else if t == "+" then
        if |v.items| < 1 then BadFormat(EmptyArray)
        else Elements(v.items, tokens[1..], next)
      else Malformed(BadArrayToken)
  }

  /** The loop of `[*]` and `[+]`: the remaining tokens, then the remainder,
      are checked against each element in turn; the first failure decides. */
  function Elements(items: seq<Json>, tokens: seq<string>, next: string): Outcome
    decreases Rank(next), 6, |tokens|, |items| + 1
  {
    if items == [] then Ok
    else
      var o := Array(tokens, next, items[0]);
      if o != Ok then o else Elements(items[1..], tokens, next)
  }
}
