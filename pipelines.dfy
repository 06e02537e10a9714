/** The item pipelines: the identity pipeline and the two writers that group
    records by state, one output stream per state key.

    Streams are in-memory buffers: the JSON writer's stream is the text written
    to it, the CSV writer's the rows written through its `csv.writer`. The
    Unicode NFKD decomposition is a per-character map `decompose`, and the
    text `json.dump` writes for one record is an abstract, non-empty
    `encode`. */
module Pipelines {
  import opened Strings
  import opened Items

  // ---------------------------------------------------------------------------
  // The state key

  predicate IsAscii(c: char) {
    c as int < 0x80
  }

  predicate IsUpper(c: char) {
    'A' <= c <= 'Z'
  }

  /** `unicodedata.normalize('NFKD', s)`, one character at a time. */
  function Nfkd(decompose: char -> string, s: string): string {
    if s == [] then [] else decompose(s[0]) + Nfkd(decompose, s[1..])
  }

  /** `.encode('ASCII', 'ignore').decode('utf-8')`: every non-ASCII character dropped. */
  function AsciiOnly(s: string): (r: string)
    ensures |r| <= |s|
  {
    if s == [] then []
    else (if IsAscii(s[0]) then [s[0]] else []) + AsciiOnly(s[1..])
  }

  function LowerChar(c: char): char {
    if IsUpper(c) then (c as int + 32) as char else c
  }

  /** `.lower()` on a string that is already pure ASCII. */
  function Lower(s: string): (r: string)
    ensures |r| == |s|
  {
    if s == [] then [] else [LowerChar(s[0])] + Lower(s[1..])
  }

  function UnderscoreChar(c: char): char {
    if c == ' ' then '_' else c
  }

  /** `.replace(' ', '_')`. */
  function Underscored(s: string): (r: string)
    ensures |r| == |s|
  {
    if s == [] then [] else [UnderscoreChar(s[0])] + Underscored(s[1..])
  }

  /** The dictionary key a raw state is filed under. */
  function StateKey(decompose: char -> string, state: string): (key: string)
    ensures state == "" ==> key == ""
  {
    Underscored(Lower(AsciiOnly(Nfkd(decompose, state))))
  }

  /** The characters a key is made of: ASCII, no upper-case letter, no space. */
  predicate IsKeyChar(c: char) {
    IsAscii(c) && !IsUpper(c) && c != ' '
  }

  lemma {:induction false} AsciiOnlyIsAscii(s: string)
    ensures |AsciiOnly(s)| <= |s|
    ensures forall i :: 0 <= i < |AsciiOnly(s)| ==> IsAscii(AsciiOnly(s)[i])
  {
    if s != [] {
      AsciiOnlyIsAscii(s[1..]);
    }
  }

  lemma {:induction false} KeyCharsOfAscii(s: string)
    requires forall i :: 0 <= i < |s| ==> IsAscii(s[i])
    ensures |Underscored(Lower(s))| == |s|
    ensures forall i :: 0 <= i < |s| ==> IsKeyChar(Underscored(Lower(s))[i])
  {
    if s != [] {
      KeyCharsOfAscii(s[1..]);
    }
  }

  /** Every key is ASCII, lower-case and free of spaces, and no longer than
      the decomposed state. */
  lemma StateKeyShape(decompose: char -> string, state: string)
    ensures var key := StateKey(decompose, state);
      && |key| <= |Nfkd(decompose, state)|
      && forall i :: 0 <= i < |key| ==> IsKeyChar(key[i])
  {
    var ascii := AsciiOnly(Nfkd(decompose, state));
    AsciiOnlyIsAscii(Nfkd(decompose, state));
    KeyCharsOfAscii(ascii);
  }

  /** NFKD leaves ASCII characters as they are. */
  ghost predicate KeepsAscii(decompose: char -> string) {
    forall c :: IsAscii(c) ==> decompose(c) == [c]
  }

  lemma {:induction false} NfkdOfAscii(decompose: char -> string, s: string)
    requires KeepsAscii(decompose)
    requires forall i :: 0 <= i < |s| ==> IsAscii(s[i])
    ensures Nfkd(decompose, s) == s
  {
    if s != [] {
      NfkdOfAscii(decompose, s[1..]);
    }
  }

  lemma {:induction false} AsciiOnlyOfAscii(s: string)
    requires forall i :: 0 <= i < |s| ==> IsAscii(s[i])
    ensures AsciiOnly(s) == s
  {
    if s != [] {
      AsciiOnlyOfAscii(s[1..]);
    }
  }

  lemma {:induction false} KeyIsFixed(s: string)
    requires forall i :: 0 <= i < |s| ==> IsKeyChar(s[i])
    ensures Underscored(Lower(s)) == s
  {
    if s != [] {
      KeyIsFixed(s[1..]);
    }
  }

  /** A key is already normalised: normalising it again gives it back. */
  lemma StateKeyIdempotent(decompose: char -> string, state: string)
    requires KeepsAscii(decompose)
    ensures StateKey(decompose, StateKey(decompose, state)) == StateKey(decompose, state)
  {
    var key := StateKey(decompose, state);
    StateKeyShape(decompose, state);
    NfkdOfAscii(decompose, key);
    AsciiOnlyOfAscii(key);
    KeyIsFixed(key);
  }

  // Each stage of the key works character by character, so it distributes
  // over concatenation.

  lemma {:induction false} NfkdAppend(decompose: char -> string, a: string, b: string)
    ensures Nfkd(decompose, a + b) == Nfkd(decompose, a) + Nfkd(decompose, b)
  {
    if a == [] {
      assert a + b == b;
    } else {
      assert (a + b)[0] == a[0] && (a + b)[1..] == a[1..] + b;
      NfkdAppend(decompose, a[1..], b);
      var head := decompose(a[0]);
      assert Nfkd(decompose, a + b) == head + (Nfkd(decompose, a[1..]) + Nfkd(decompose, b));
      assert head + (Nfkd(decompose, a[1..]) + Nfkd(decompose, b)) == (head + Nfkd(decompose, a[1..])) + Nfkd(decompose, b);
    }
  }

  lemma {:induction false} AsciiOnlyAppend(a: string, b: string)
    ensures AsciiOnly(a + b) == AsciiOnly(a) + AsciiOnly(b)
  {
    if a == [] {
      assert a + b == b;
    } else {
      assert (a + b)[0] == a[0] && (a + b)[1..] == a[1..] + b;
      AsciiOnlyAppend(a[1..], b);
      var head := if IsAscii(a[0]) then [a[0]] else [];
      assert AsciiOnly(a + b) == head + (AsciiOnly(a[1..]) + AsciiOnly(b));
      assert head + (AsciiOnly(a[1..]) + AsciiOnly(b)) == (head + AsciiOnly(a[1..])) + AsciiOnly(b);
    }
  }

  lemma {:induction false} LowerAppend(a: string, b: string)
    ensures Lower(a + b) == Lower(a) + Lower(b)
  {
    if a == [] {
      assert a + b == b;
    } else {
      assert (a + b)[0] == a[0] && (a + b)[1..] == a[1..] + b;
      LowerAppend(a[1..], b);
      var head := [LowerChar(a[0])];
      assert Lower(a + b) == head + (Lower(a[1..]) + Lower(b));
      assert head + (Lower(a[1..]) + Lower(b)) == (head + Lower(a[1..])) + Lower(b);
    }
  }

  lemma {:induction false} UnderscoredAppend(a: string, b: string)
    ensures Underscored(a + b) == Underscored(a) + Underscored(b)
  {
    if a == [] {
      assert a + b == b;
    } else {
      assert (a + b)[0] == a[0] && (a + b)[1..] == a[1..] + b;
      UnderscoredAppend(a[1..], b);
      var head := [UnderscoreChar(a[0])];
      assert Underscored(a + b) == head + (Underscored(a[1..]) + Underscored(b));
      assert head + (Underscored(a[1..]) + Underscored(b)) == (head + Underscored(a[1..])) + Underscored(b);
    }
  }

  /** The key of a concatenation is the concatenation of the keys. */
  lemma StateKeyAppend(decompose: char -> string, a: string, b: string)
    ensures StateKey(decompose, a + b) == StateKey(decompose, a) + StateKey(decompose, b)
  {
    NfkdAppend(decompose, a, b);
    AsciiOnlyAppend(Nfkd(decompose, a), Nfkd(decompose, b));
    LowerAppend(AsciiOnly(Nfkd(decompose, a)), AsciiOnly(Nfkd(decompose, b)));
    UnderscoredAppend(Lower(AsciiOnly(Nfkd(decompose, a))), Lower(AsciiOnly(Nfkd(decompose, b))));
  }

  /** An ASCII string with no upper-case letter and no space is its own key. */
  lemma StateKeyOfKeyChars(decompose: char -> string, s: string)
    requires KeepsAscii(decompose)
    requires forall i :: 0 <= i < |s| ==> IsKeyChar(s[i])
    ensures StateKey(decompose, s) == s
  {
    NfkdOfAscii(decompose, s);
    AsciiOnlyOfAscii(s);
    KeyIsFixed(s);
  }

  /** A single ASCII character's key: lower-cased, a space turned into `_`. */
  lemma StateKeyOfAsciiChar(decompose: char -> string, c: char)
    requires KeepsAscii(decompose) && IsAscii(c)
    ensures StateKey(decompose, [c]) == [UnderscoreChar(LowerChar(c))]
  {
    var one := [c];
    assert one[1..] == [];
    assert decompose(c) == [c];
    assert Nfkd(decompose, one) == one;
    assert AsciiOnly(one) == one;
    var low := [LowerChar(c)];
    assert low[1..] == [];
    assert Lower(one) == low;
    assert Underscored(low) == [UnderscoreChar(LowerChar(c))];
  }

  /** A single character that decomposes into an ASCII letter and a
      combining mark keeps only the letter, lower-cased. */
  lemma StateKeyOfAccented(decompose: char -> string, c: char, base: char, mark: char)
    requires decompose(c) == [base, mark]
    requires IsAscii(base) && !IsUpper(base) && base != ' ' && !IsAscii(mark)
    ensures StateKey(decompose, [c]) == [base]
  {
    var one, pair, tail, only := [c], [base, mark], [mark], [base];
    assert one[1..] == [] && pair[1..] == tail && tail[1..] == [] && only[1..] == [];
    assert Nfkd(decompose, one) == pair;
    assert AsciiOnly(tail) == [];
    assert AsciiOnly(pair) == only;
    assert Lower(only) == only;
    assert Underscored(only) == only;
  }

  /** The key of a non-empty string: its first character's, then the rest's. */
  lemma StateKeyCons(decompose: char -> string, s: string)
    requires s != []
    ensures StateKey(decompose, s) == StateKey(decompose, [s[0]]) + StateKey(decompose, s[1..])
  {
    assert s == [s[0]] + s[1..];
    StateKeyAppend(decompose, [s[0]], s[1..]);
  }

  /** "São Paulo" is filed under "sao_paulo": the accent is decomposed off
      and dropped, the capitals lowered and the space replaced. */
  lemma SaoPauloKey(decompose: char -> string)
    requires KeepsAscii(decompose)
    requires decompose('\U{00E3}') == "a\U{0303}"
    ensures StateKey(decompose, "S\U{00E3}o Paulo") == "sao_paulo"
  {
    PauloKey(decompose);
    KeyStep(decompose, "o Paulo", " Paulo", 'o');
    AccentStep(decompose);
    KeyStep(decompose, "S\U{00E3}o Paulo", "\U{00E3}o Paulo", 'S');
  }

  lemma PauloKey(decompose: char -> string)
    requires KeepsAscii(decompose)
    ensures StateKey(decompose, " Paulo") == "_paulo"
  {
    StateKeyOfKeyChars(decompose, "aulo");
    KeyStep(decompose, "Paulo", "aulo", 'P');
    KeyStep(decompose, " Paulo", "Paulo", ' ');
  }

  lemma AccentStep(decompose: char -> string)
    requires decompose('\U{00E3}') == "a\U{0303}"
    ensures StateKey(decompose, "\U{00E3}o Paulo") == "a" + StateKey(decompose, "o Paulo")
  {
    StateKeyCons(decompose, "\U{00E3}o Paulo");
    StateKeyOfAccented(decompose, '\U{00E3}', 'a', '\U{0303}');
  }

  /** One ASCII character in front of `rest`: its key in front of `rest`'s. */
  lemma KeyStep(decompose: char -> string, s: string, rest: string, c: char)
    requires KeepsAscii(decompose) && IsAscii(c)
    requires s != [] && s[0] == c && s[1..] == rest
    ensures StateKey(decompose, s) == [UnderscoreChar(LowerChar(c))] + StateKey(decompose, rest)
  {
    StateKeyCons(decompose, s);
    StateKeyOfAsciiChar(decompose, c);
  }

  /** The file name a new stream gets: `error<ext>` for an empty state, and
      `<key><ext>` otherwise. */
  function FileName(state: string, key: string, ext: string): string {
    (if state == "" then "error" else key) + ext
  }

  /** Where a new stream is opened: the file name joined to the output
      directory as POSIX `os.path.join` does it. */
  function FilePath(dir: string, state: string, key: string, ext: string): string {
    PathJoin(dir, FileName(state, key, ext))
  }

  /** A path ends in its file name; an absolute file name is the whole path;
      an empty state opens `error<ext>` under the directory. */
  lemma FilePathShape(dir: string, state: string, key: string, ext: string)
    ensures var path, name := FilePath(dir, state, key, ext), FileName(state, key, ext);
      && |name| <= |path| && path[|path| - |name|..] == name
      && (name != [] && name[0] == '/' ==> path == name)
    ensures state == "" && dir != [] && dir[|dir| - 1] != '/' ==>
      FilePath(dir, state, key, ext) == dir + "/error" + ext
  {
  }

  /** An empty state and the raw state "error" are two keys, but their streams
      are opened on one path, so the second open truncates the first file. */
  lemma ErrorPathShared(decompose: char -> string, dir: string, ext: string)
    requires KeepsAscii(decompose)
    ensures StateKey(decompose, "") == "" && StateKey(decompose, "error") == "error"
    ensures FilePath(dir, "", StateKey(decompose, ""), ext)
         == FilePath(dir, "error", StateKey(decompose, "error"), ext)
  {
    NfkdOfAscii(decompose, "error");
    AsciiOnlyOfAscii("error");
    KeyIsFixed("error");
  }

  /** A state that starts with `/` keeps it in its key, and `os.path.join`
      then discards the output directory: "/x" is written to "/x.json". */
  lemma AbsoluteStatePath(decompose: char -> string)
    requires KeepsAscii(decompose)
    ensures StateKey(decompose, "/x") == "/x"
    ensures FilePath("output_json", "/x", StateKey(decompose, "/x"), ".json") == "/x.json"
  {
    StateKeyOfKeyChars(decompose, "/x");
  }

  // ---------------------------------------------------------------------------
  // Routing: which records a key's stream receives

  /** The records of `history` filed under `key`, in arrival order. */
  function Routed(decompose: char -> string, history: seq<City>, key: string): seq<City> {
    if history == [] then []
    else
      var c := history[|history| - 1];
      Routed(decompose, history[..|history| - 1], key)
        + (if StateKey(decompose, c.state) == key then [c] else [])
  }

  /** The keys some record of `history` is filed under. */
  function KeysOf(decompose: char -> string, history: seq<City>): set<string> {
    if history == [] then {}
    else KeysOf(decompose, history[..|history| - 1]) + {StateKey(decompose, history[|history| - 1].state)}
  }

  /** A key has been seen exactly when some record was routed to it. */
  lemma {:induction false} KeysOfRouted(decompose: char -> string, history: seq<City>, key: string)
    ensures key in KeysOf(decompose, history) <==> Routed(decompose, history, key) != []
  {
    if history != [] {
      KeysOfRouted(decompose, history[..|history| - 1], key);
    }
  }

  /** A new record joins the end of its own key's records and no other's. */
  lemma RoutedAppend(decompose: char -> string, history: seq<City>, c: City, key: string)
    ensures Routed(decompose, history + [c], key)
         == Routed(decompose, history, key) + (if StateKey(decompose, c.state) == key then [c] else [])
  {
    HistoryAppend(history, c);
  }

  lemma HistoryAppend(history: seq<City>, c: City)
    ensures (history + [c])[..|history|] == history && (history + [c])[|history|] == c
  {
  }

  // ---------------------------------------------------------------------------
  // JSON streams

  function Encodings(encode: City -> string, records: seq<City>): (r: seq<string>)
    ensures |r| == |records|
  {
    seq(|records|, i requires 0 <= i < |records| => encode(records[i]))
  }

  /** What a key's JSON stream holds before `close_spider`: the opening
      bracket, then the records separated by `",\n"`. */
  function JsonDoc(encode: City -> string, records: seq<City>): string {
    "[\n" + Join(Encodings(encode, records), ",\n")
  }

  /** One more record extends the stream with a separator, unless it is the first. */
  lemma JsonDocAppend(encode: City -> string, records: seq<City>, c: City)
    ensures JsonDoc(encode, records + [c])
         == JsonDoc(encode, records) + (if records == [] then "" else ",\n") + encode(c)
  {
    var e := Encodings(encode, records + [c]);
    assert e[..|records|] == Encodings(encode, records);
  }

  /** The `tell() > 2` test: with non-empty record encodings, the stream is
      longer than its two-character opening exactly when a record is in it. */
  lemma JsonTellTest(encode: City -> string, records: seq<City>)
    requires forall c :: encode(c) != []
    ensures |JsonDoc(encode, records)| > 2 <==> records != []
  {
    if records != [] {
      JoinNonEmpty(Encodings(encode, records), ",\n");
    }
  }

  // ---------------------------------------------------------------------------
  // The writers' invariants, over plain values

  /** Each key's stream was opened on the path its first record chose. */
  ghost predicate PathsChosen(decompose: char -> string, dir: string, paths: map<string, string>,
                              history: seq<City>, ext: string)
  {
    forall k {:trigger Routed(decompose, history, k)} :: k in paths ==>
      var r := Routed(decompose, history, k);
      r != [] && paths[k] == FilePath(dir, r[0].state, k, ext)
  }

  /** Open-if-absent: a record opens a path only for a key not seen before. */
  lemma PathsChosenAppend(decompose: char -> string, dir: string, paths: map<string, string>,
                          history: seq<City>, item: City, ext: string)
    requires paths.Keys == KeysOf(decompose, history)
    requires PathsChosen(decompose, dir, paths, history, ext)
    ensures var key := StateKey(decompose, item.state);
      PathsChosen(decompose, dir,
        if key in paths then paths else paths[key := FilePath(dir, item.state, key, ext)],
        history + [item], ext)
  {
    var key := StateKey(decompose, item.state);
    var paths' := if key in paths then paths else paths[key := FilePath(dir, item.state, key, ext)];
    HistoryAppend(history, item);
    forall k | k in paths'
      ensures var r := Routed(decompose, history + [item], k);
        r != [] && paths'[k] == FilePath(dir, r[0].state, k, ext)
    {
      KeysOfRouted(decompose, history, k);
    }
  }

  /** One more record adds its own key to the keys seen, and nothing else. */
  lemma KeysOfAppend(decompose: char -> string, history: seq<City>, item: City)
    ensures KeysOf(decompose, history + [item]) == KeysOf(decompose, history) + {StateKey(decompose, item.state)}
  {
    HistoryAppend(history, item);
  }

  /** Each key's JSON stream holds exactly the records routed to it, closed
      by `"\n]"` once the spider is closed. */
  ghost predicate JsonContents(decompose: char -> string, encode: City -> string,
                               files: map<string, string>, history: seq<City>, closed: bool)
  {
    forall k {:trigger Routed(decompose, history, k)} :: k in files ==>
      files[k] == JsonDoc(encode, Routed(decompose, history, k)) + (if closed then "\n]" else "")
  }

  /** The JSON writer's state: one stream and one path per key seen, each
      holding that key's records, each path chosen by the key's first record. */
  ghost predicate JsonStreams(decompose: char -> string, encode: City -> string, dir: string,
                              files: map<string, string>, paths: map<string, string>,
                              history: seq<City>, closed: bool)
  {
    && files.Keys == paths.Keys == KeysOf(decompose, history)
    && JsonContents(decompose, encode, files, history, closed)
    && PathsChosen(decompose, dir, paths, history, ".json")
  }

  /** The step `process_item` takes on one key's stream: opening it when
      the key has no record yet, otherwise a separator, then the record. */
  lemma JsonStreamNext(encode: City -> string, before: seq<City>, isOpen: bool, file: string, item: City)
    requires isOpen <==> before != []
    requires isOpen ==> file == JsonDoc(encode, before)
    ensures (if isOpen then file + ",\n" else "[\n") + encode(item) == JsonDoc(encode, before + [item])
  {
    JsonDocAppend(encode, before, item);
  }

  /** Writing a record to its key's stream keeps every stream's contents
      those of its key's records. */
  lemma JsonContentsWrite(decompose: char -> string, encode: City -> string,
                          files: map<string, string>, history: seq<City>, item: City)
    requires files.Keys == KeysOf(decompose, history)
    requires JsonContents(decompose, encode, files, history, false)
    ensures var key := StateKey(decompose, item.state);
      JsonContents(decompose, encode,
        files[key := (if key in files then files[key] + ",\n" else "[\n") + encode(item)],
        history + [item], false)
  {
    var key := StateKey(decompose, item.state);
    var files' := files[key := (if key in files then files[key] + ",\n" else "[\n") + encode(item)];
    forall k | k in files'
      ensures files'[k] == JsonDoc(encode, Routed(decompose, history + [item], k)) + ""
    {
      RoutedAppend(decompose, history, item, k);
      var before := Routed(decompose, history, k);
      if k == key {
        KeysOfRouted(decompose, history, key);
        JsonStreamNext(encode, before, key in files, if key in files then files[key] else "", item);
        assert Routed(decompose, history + [item], k) == before + [item];
      } else {
        assert Routed(decompose, history + [item], k) == before;
        assert files'[k] == files[k] == JsonDoc(encode, before) + "";
      }
    }
  }

  /** One `process_item` on the JSON writer: an open stream is past its
      opening, so the `tell() > 2` test adds the separator exactly when the
      key already has a record, and the new state again satisfies the invariant. */
  lemma JsonStreamsWrite(decompose: char -> string, encode: City -> string, dir: string,
                         files: map<string, string>, paths: map<string, string>,
                         history: seq<City>, item: City)
    requires forall c :: encode(c) != []
    requires JsonStreams(decompose, encode, dir, files, paths, history, false)
    ensures var key := StateKey(decompose, item.state);
      && (key in files ==> |files[key]| > 2)
      && JsonStreams(decompose, encode, dir,
           files[key := (if key in files then files[key] + ",\n" else "[\n") + encode(item)],
           if key in paths then paths else paths[key := FilePath(dir, item.state, key, ".json")],
           history + [item], false)
  {
    var key := StateKey(decompose, item.state);
    KeysOfRouted(decompose, history, key);
    JsonTellTest(encode, Routed(decompose, history, key));
    KeysOfAppend(decompose, history, item);
    JsonContentsWrite(decompose, encode, files, history, item);
    PathsChosenAppend(decompose, dir, paths, history, item, ".json");
  }

  /** `close_spider` on the JSON writer: `"\n]"` after every stream. */
  lemma JsonStreamsClose(decompose: char -> string, encode: City -> string, dir: string,
                         files: map<string, string>, paths: map<string, string>, history: seq<City>,
                         closedFiles: map<string, string>)
    requires JsonStreams(decompose, encode, dir, files, paths, history, false)
    requires closedFiles.Keys == files.Keys
    requires forall k :: k in files ==> closedFiles[k] == files[k] + "\n]"
    ensures JsonStreams(decompose, encode, dir, closedFiles, paths, history, true)
  {
    forall k | k in closedFiles
      ensures closedFiles[k] == JsonDoc(encode, Routed(decompose, history, k)) + "\n]"
    {
      assert files[k] == JsonDoc(encode, Routed(decompose, history, k)) + "";
    }
  }

  /** After `close_spider`, a key's file is a bracketed, comma-separated array
      of exactly the records routed to that key, and there is one file per key seen. */
  lemma JsonClosed(decompose: char -> string, encode: City -> string, dir: string,
                   files: map<string, string>, paths: map<string, string>, history: seq<City>, k: string)
    requires JsonStreams(decompose, encode, dir, files, paths, history, true)
    requires k in files
    ensures var records := Routed(decompose, history, k);
      && records != []
      && files[k] == "[\n" + Join(Encodings(encode, records), ",\n") + "\n]"
  {
    KeysOfRouted(decompose, history, k);
  }

  /** The loop of `close_spider`: `"\n]"` written to every open stream, one
      stream at a time, in no particular order. */
  method CloseStreams(files: map<string, string>) returns (streams: map<string, string>)
    ensures streams.Keys == files.Keys
    ensures forall k :: k in files ==> streams[k] == files[k] + "\n]"
  {
    streams := files;
    var pending := streams.Keys;
    while pending != {}
      invariant pending <= streams.Keys == files.Keys
      invariant forall k :: k in streams ==>
        streams[k] == if k in pending then files[k] else files[k] + "\n]"
      decreases pending
    {
      var k :| k in pending;
      var file := streams[k] + "\n";
      file := file + "]";
      streams := streams[k := file];
      pending := pending - {k};
    }
  }

  /** Writes records to one JSON stream per state key. */
  class JsonWriterPipeline {
    const outputDir: string
    const decompose: char -> string
    const encode: City -> string
    /** `self.files`: state key to the text written to that key's stream. */
    var files: map<string, string>
    /** The path each key's stream was opened on. */
    var paths: map<string, string>
    var closed: bool
    /** Every record processed so far, in order. */
    ghost var history: seq<City>

    ghost predicate Valid()
      reads this
    {
      && (forall c :: encode(c) != [])
      && JsonStreams(decompose, encode, outputDir, files, paths, history, closed)
    }

    /** `__init__`: no stream is open. */
    constructor (decompose: char -> string, encode: City -> string)
      requires forall c :: encode(c) != []
      ensures Valid() && !closed
      ensures this.decompose == decompose && this.encode == encode && outputDir == "output_json"
      ensures files == map[] && paths == map[] && history == []
    {
      this.decompose := decompose;
      this.encode := encode;
      outputDir := "output_json";
      files := map[];
      paths := map[];
      closed := false;
      history := [];
    }

    /** `process_item`: opens the key's stream on its first record, writing
        `"[\n"`, then appends `",\n"` when the stream is past its opening, then
        the record. Only that key's stream changes; the item is returned as is. */
    method ProcessItem(item: City) returns (r: City)
      requires Valid() && !closed
      modifies this
      ensures Valid() && !closed && r == item
      ensures history == old(history) + [item]
      ensures var key := StateKey(decompose, item.state);
        && files == old(files)[key := (if key in old(files) then old(files[key]) + ",\n" else "[\n") + encode(item)]
        && paths == if key in old(paths) then old(paths)
                    else old(paths)[key := FilePath(outputDir, item.state, key, ".json")]
    {
      var key := StateKey(decompose, item.state);
      var path := FilePath(outputDir, item.state, key, ".json");
      JsonStreamsWrite(decompose, encode, outputDir, files, paths, history, item);
      var file: string;
      if key in files {
        file := files[key];
      } else {
        file := "[\n";
        paths := paths[key := path];
      }
      if |file| > 2 {
        file := file + ",\n";
      }
      file := file + encode(item);
      files := files[key := file];
      history := history + [item];
      r := item;
    }

    /** `close_spider`: appends `"\n]"` to every open stream and closes it. */
    method CloseSpider()
      requires Valid() && !closed
      modifies this
      ensures Valid() && closed
      ensures history == old(history) && paths == old(paths) && files.Keys == old(files.Keys)
      ensures forall k :: k in files ==> files[k] == old(files[k]) + "\n]"
    {
      var streams := CloseStreams(files);
      JsonStreamsClose(decompose, encode, outputDir, files, paths, history, streams);
      files := streams;
      closed := true;
    }
  }

  // ---------------------------------------------------------------------------
  // CSV streams

  const HEADER: seq<string> := ["Name", "State", "Distance to the Capital (Km)",
    "Total Population", "Total Area", "Density", "HDI", "URL"]

  /** The data row `process_item` writes for a record. */
  function CsvRow(c: City): (row: seq<string>)
    ensures |row| == |HEADER|
  {
    [c.name, c.state, c.distanceToTheCapital, c.totalPopulation, c.totalArea, c.density, c.hdi, c.url]
  }

  /** Reads a record back from a data row: the columns are the fields in order. */
  function CityOfRow(row: seq<string>): City
    requires |row| == |HEADER|
  {
    City(row[0], row[1], row[2], row[3], row[4], row[5], row[6], row[7])
  }

  /** The data rows written for `records`, in order. */
  function CsvRows(records: seq<City>): seq<seq<string>> {
    if records == [] then []
    else CsvRows(records[..|records| - 1]) + [CsvRow(records[|records| - 1])]
  }

  /** What a key's CSV stream holds: the header row once, then one row per record. */
  function CsvTable(records: seq<City>): seq<seq<string>> {
    [HEADER] + CsvRows(records)
  }

  lemma {:induction false} CsvRowsDecode(records: seq<City>)
    ensures |CsvRows(records)| == |records|
    ensures forall i :: 0 <= i < |records| ==>
      |CsvRows(records)[i]| == |HEADER| && CityOfRow(CsvRows(records)[i]) == records[i]
  {
    if records != [] {
      CsvRowsDecode(records[..|records| - 1]);
    }
  }

  /** The header comes first and only there: every later row has the
      header's width and reads back as the corresponding record. */
  lemma CsvTableRows(records: seq<City>)
    ensures var t := CsvTable(records);
      && |t| == |records| + 1 && t[0] == HEADER
      && forall i :: 1 <= i < |t| ==> |t[i]| == |HEADER| && CityOfRow(t[i]) == records[i - 1]
  {
    CsvRowsDecode(records);
  }

  lemma CsvTableAppend(records: seq<City>, c: City)
    ensures CsvTable(records + [c]) == CsvTable(records) + [CsvRow(c)]
  {
    assert (records + [c])[..|records|] == records;
  }

  /** Each key's writer has written the header and then exactly the rows of
      the records routed to that key. */
  ghost predicate CsvContents(decompose: char -> string, writers: map<string, seq<seq<string>>>,
                              history: seq<City>)
  {
    forall k {:trigger Routed(decompose, history, k)} :: k in writers ==>
      writers[k] == CsvTable(Routed(decompose, history, k))
  }

  /** The CSV writer's state: one stream and one writer per key seen, each
      holding that key's rows, each path chosen by the key's first record. */
  ghost predicate CsvStreams(decompose: char -> string, dir: string, files: map<string, string>,
                             writers: map<string, seq<seq<string>>>, history: seq<City>)
  {
    && files.Keys == writers.Keys == KeysOf(decompose, history)
    && CsvContents(decompose, writers, history)
    && PathsChosen(decompose, dir, files, history, ".csv")
  }

  /** Writing a record's row keeps every writer's rows those of its key's records. */
  lemma CsvContentsWrite(decompose: char -> string, writers: map<string, seq<seq<string>>>,
                         history: seq<City>, item: City)
    requires writers.Keys == KeysOf(decompose, history)
    requires CsvContents(decompose, writers, history)
    ensures var key := StateKey(decompose, item.state);
      CsvContents(decompose,
        writers[key := (if key in writers then writers[key] else [HEADER]) + [CsvRow(item)]],
        history + [item])
  {
    var key := StateKey(decompose, item.state);
    var writers' := writers[key := (if key in writers then writers[key] else [HEADER]) + [CsvRow(item)]];
    forall k | k in writers'
      ensures writers'[k] == CsvTable(Routed(decompose, history + [item], k))
    {
      RoutedAppend(decompose, history, item, k);
      var before := Routed(decompose, history, k);
      if k == key {
        KeysOfRouted(decompose, history, key);
        CsvTableAppend(before, item);
        assert Routed(decompose, history + [item], k) == before + [item];
        assert key !in writers ==> CsvTable(before) == [HEADER];
      } else {
        assert Routed(decompose, history + [item], k) == before;
      }
    }
  }

  /** One `process_item` on the CSV writer: header on a key's first record
      only, then the record's row, and the invariant holds again. */
  lemma CsvStreamsWrite(decompose: char -> string, dir: string, files: map<string, string>,
                        writers: map<string, seq<seq<string>>>, history: seq<City>, item: City)
    requires CsvStreams(decompose, dir, files, writers, history)
    ensures var key := StateKey(decompose, item.state);
      CsvStreams(decompose, dir,
        if key in files then files else files[key := FilePath(dir, item.state, key, ".csv")],
        writers[key := (if key in writers then writers[key] else [HEADER]) + [CsvRow(item)]],
        history + [item])
  {
    KeysOfAppend(decompose, history, item);
    CsvContentsWrite(decompose, writers, history, item);
    PathsChosenAppend(decompose, dir, files, history, item, ".csv");
  }

  /** Writes records to one CSV stream per state key. */
  class CsvWriterPipeline {
    const outputDir: string
    const decompose: char -> string
    /** `self.files`: state key to the path its stream was opened on. */
    var files: map<string, string>
    /** `self.writers`: state key to the rows written through that key's writer. */
    var writers: map<string, seq<seq<string>>>
    var closed: bool
    /** Every record processed so far, in order. */
    ghost var history: seq<City>

    ghost predicate Valid()
      reads this
    {
      CsvStreams(decompose, outputDir, files, writers, history)
    }

    /** `__init__`: no stream is open. */
    constructor (decompose: char -> string)
      ensures Valid() && !closed
      ensures this.decompose == decompose && outputDir == "output_csv"
      ensures files == map[] && writers == map[] && history == []
    {
      this.decompose := decompose;
      outputDir := "output_csv";
      files := map[];
      writers := map[];
      closed := false;
      history := [];
    }

    /** `process_item`: opens the key's stream and writes the header on its
        first record, then writes the record's row. Only that key's stream
        changes; the item is returned as is. */
    method ProcessItem(item: City) returns (r: City)
      requires Valid() && !closed
      modifies this
      ensures Valid() && !closed && r == item
      ensures history == old(history) + [item]
      ensures var key := StateKey(decompose, item.state);
        && writers == old(writers)[key := (if key in old(writers) then old(writers[key]) else [HEADER]) + [CsvRow(item)]]
        && files == if key in old(files) then old(files)
                    else old(files)[key := FilePath(outputDir, item.state, key, ".csv")]
    {
      var key := StateKey(decompose, item.state);
      var path := FilePath(outputDir, item.state, key, ".csv");
      CsvStreamsWrite(decompose, outputDir, files, writers, history, item);
      var rows: seq<seq<string>>;
      if key in files {
        rows := writers[key];
      } else {
        files := files[key := path];
        rows := [HEADER];
      }
      rows := rows + [CsvRow(item)];
      writers := writers[key := rows];
      history := history + [item];
      r := item;
    }

    /** `close_spider`: closes every stream; nothing more is written. */
    method CloseSpider()
      requires Valid() && !closed
      modifies this
      ensures Valid() && closed
      ensures history == old(history) && files == old(files) && writers == old(writers)
    {
      closed := true;
    }
  }

  // ---------------------------------------------------------------------------
  // The identity pipeline

  class ActivityPipeline {
    constructor () {}

    /** `process_item`: hands the item on unchanged. */
    method ProcessItem(item: City) returns (r: City)
      ensures r == item
    {
      r := item;
    }
  }
}
