/** The structured-field dictionary helpers of lib/expo.ts: `splitCsv`, the
    simplified parser `parseStructuredDictionary` and the serialiser
    `serializeStructuredDictionary`. Both cover a subset of section 3.2 of
    RFC 8941 and follow the code rather than the RFC: members are split at
    every comma, including commas inside quoted strings. */
module Sfv {
  import opened Wrappers
  import opened Text

  /** Trims each part and drops the empty ones (`.map(trim).filter(Boolean)`). */
  function CleanParts(parts: seq<string>): (r: seq<string>)
    ensures |r| <= |parts|
    ensures forall p :: p in r ==> p != "" && Trim(p) == p
  {
    if |parts| == 0 then []
    else
      var t := Trim(parts[0]);
      TrimIdempotent(parts[0]);
      (if t == "" then [] else [t]) + CleanParts(parts[1..])
  }

  /** `splitCsv`: the non-empty trimmed comma-separated parts. */
  function SplitCsv(value: string): (r: seq<string>)
    ensures forall p :: p in r ==> p != "" && Trim(p) == p
  {
    CleanParts(Split(value, ','))
  }

  lemma CleanPartsLeadingSpace(parts: seq<string>)
    requires |parts| > 0
    ensures CleanParts([" " + parts[0]] + parts[1..]) == CleanParts(parts)
  {
    var p := [" " + parts[0]] + parts[1..];
    assert p[0] == [' '] + parts[0] && p[1..] == parts[1..];
    SpaceIsSpace();
    TrimLeadingSpace(' ', parts[0]);
  }

  lemma CleanPartsCons(m: string, rest: seq<string>)
    requires m != "" && Trim(m) == m
    ensures CleanParts([m] + rest) == [m] + CleanParts(rest)
  {
    assert ([m] + rest)[1..] == rest;
  }

  /** A space after a comma does not change the split of what follows. */
  lemma SplitLeadingSpace(j: string)
    ensures Split(" " + j, ',') == [" " + Split(j, ',')[0]] + Split(j, ',')[1..]
  {
    assert (" " + j)[1..] == j;
  }

  /** Joining trimmed, non-empty, comma-free members with ", " and splitting
      the result again gives the members back. */
  lemma {:induction false} SplitCsvJoin(members: seq<string>)
    requires |members| > 0
    requires forall m :: m in members ==> m != "" && ',' !in m && Trim(m) == m
    ensures SplitCsv(Join(members, ", ")) == members
    decreases |members|
  {
    var m := members[0];
    assert m in members;
    if |members| == 1 {
      SplitNoSeparator(m, ',');
      CleanPartsCons(m, []);
    } else {
      var rest := members[1..];
      var j := Join(rest, ", ");
      assert Join(members, ", ") == m + [','] + (" " + j);
      SplitAtSeparator(m, ',', " " + j);
      var tail := Split(j, ',');
      SplitLeadingSpace(j);
      CleanPartsLeadingSpace(tail);
      CleanPartsCons(m, Split(" " + j, ','));
      assert forall r :: r in rest ==> r in members;
      SplitCsvJoin(rest);
    }
  }

  // ---------------------------------------------------------------------
  // Parsing

  /** A dictionary member value: the bare-key flag (`true`) or a string. */
  datatype SfItem = SfFlag | SfString(text: string)

  type SfDictionary = map<string, SfItem>

  /** `{ valid, value }`: `value` is the dictionary when `valid`, else null. */
  datatype DictionaryParse = DictionaryParse(valid: bool, value: Option<SfDictionary>)

  predicate IsAsciiLetter(c: char) {
    'a' <= c <= 'z' || 'A' <= c <= 'Z'
  }

  predicate IsKeyStart(c: char) {
    IsAsciiLetter(c) || c == '*'
  }

  predicate IsKeyChar(c: char) {
    IsAsciiLetter(c) || '0' <= c <= '9' || c == '_' || c == '.' || c == '*' || c == '-'
  }

  /** The key grammar `^[a-z*][a-z0-9_.*-]*$` with the `i` flag. */
  predicate ValidKey(k: string) {
    |k| > 0 && IsKeyStart(k[0]) && forall i :: 1 <= i < |k| ==> IsKeyChar(k[i])
  }

  /** `.replace(/\\"/g, '"')`: every backslash-quote pair, scanned from the
      left without overlap, becomes a quote. */
  function Unescape(s: string): (r: string)
    ensures |r| <= |s|
    decreases |s|
  {
    if |s| >= 2 && s[0] == '\\' && s[1] == '"' then "\"" + Unescape(s[2..])
    else if |s| == 0 then ""
    else [s[0]] + Unescape(s[1..])
  }

  /** `raw.slice(1, -1)` for a string of at least one character. */
  function Inner(raw: string): (r: string)
    ensures |raw| >= 2 ==> r == raw[1..|raw| - 1]
    ensures |raw| < 2 ==> r == ""
  {
    if |raw| >= 2 then raw[1..|raw| - 1] else ""
  }

  /** The value of a member written `key=raw` (with `raw` trimmed): a quoted
      string loses its quotes and its escapes; anything else, the `:...:`
      byte sequence included, is kept verbatim. */
  function MemberValue(raw: string): (r: SfItem)
    ensures StartsWith(raw, "\"") && EndsWith(raw, "\"") ==> r == SfString(Unescape(Inner(raw)))
    ensures !(StartsWith(raw, "\"") && EndsWith(raw, "\"")) ==> r == SfString(raw)
  {
    if StartsWith(raw, "\"") && EndsWith(raw, "\"") then SfString(Unescape(Inner(raw)))
    else SfString(raw)
  }

  /** The key of a member: the trimmed text before its first `=`. */
  function MemberKey(member: string): string {
    Trim(Split(member, '=')[0])
  }

  /** One member: `None` when its key breaks the grammar; a bare key is a
      flag; otherwise the value is everything after the first `=` (later `=`
      kept), trimmed. */
  function ParseMember(member: string): (r: Option<(string, SfItem)>)
    ensures r.Some? <==> ValidKey(MemberKey(member))
    ensures r.Some? ==> r.value.0 == MemberKey(member)
    ensures r.Some? && '=' !in member ==> r.value.1 == SfFlag
  {
    var parts := Split(member, '=');
    var key := MemberKey(member);
    if !ValidKey(key) then None
    else if |parts| == 1 then Some((key, SfFlag))
    else
      SplitSingleIff(member, '=');
      Some((key, MemberValue(Trim(Join(parts[1..], "=")))))
  }

  /** The member loop: stops at the first invalid key; a later key
      overwrites an earlier one. */
  function ParseMembers(members: seq<string>, acc: SfDictionary): (r: DictionaryParse)
    ensures r.valid <==> r.value.Some?
    ensures r.valid <==> forall i :: 0 <= i < |members| ==> ParseMember(members[i]).Some?
    ensures r.valid ==> acc.Keys <= r.value.value.Keys
    decreases |members|
  {
    if |members| == 0 then DictionaryParse(true, Some(acc))
    else
      match ParseMember(members[0])
      case None => DictionaryParse(false, None)
      case Some(kv) =>
        var r := ParseMembers(members[1..], acc[kv.0 := kv.1]);
        assert forall i :: 1 <= i < |members| ==> members[i] == members[1..][i - 1];
        r
  }

  /** One valid member, then the rest. */
  lemma ParseMembersCons(members: seq<string>, acc: SfDictionary)
    requires |members| > 0 && ParseMember(members[0]).Some?
    ensures ParseMembers(members, acc) ==
      ParseMembers(members[1..], acc[ParseMember(members[0]).value.0 := ParseMember(members[0]).value.1])
  {
  }

  /** `parseStructuredDictionary`. */
  function ParseStructuredDictionary(raw: string): (r: DictionaryParse)
    ensures r.valid <==> r.value.Some?
    ensures Trim(raw) == "" ==> r == DictionaryParse(true, Some(map[]))
    ensures r.valid <==> forall m :: m in SplitCsv(Trim(raw)) ==> ParseMember(m).Some?
  {
    var trimmed := Trim(raw);
    if trimmed == "" then DictionaryParse(true, Some(map[]))
    else ParseMembers(SplitCsv(trimmed), map[])
  }

  /** A later member with a valid key overwrites whatever an earlier member
      stored under the same key. */
  lemma {:induction false} ParseMembersLaterOverwrites(members: seq<string>, m: string, acc: SfDictionary)
    ensures ParseMembers(members, acc).valid && ParseMember(m).Some? ==>
      ParseMembers(members + [m], acc) ==
      DictionaryParse(true, Some(ParseMembers(members, acc).value.value[ParseMember(m).value.0 := ParseMember(m).value.1]))
    decreases |members|
  {
    var ms := members + [m];
    if !(ParseMembers(members, acc).valid && ParseMember(m).Some?) {
    } else if |members| == 0 {
      assert ms == [m] && ms[1..] == [];
      ParseMembersCons(ms, acc);
    } else {
      assert ms[0] == members[0] && ms[1..] == members[1..] + [m];
      assert ParseMember(members[0]).Some?;
      var kv := ParseMember(members[0]).value;
      ParseMembersCons(ms, acc);
      ParseMembersCons(members, acc);
      ParseMembersLaterOverwrites(members[1..], m, acc[kv.0 := kv.1]);
    }
  }

  // ---------------------------------------------------------------------
  // Serialising

  /** The characters `[a-z0-9_.*-]` a serialised key may keep. */
  predicate IsSafeKeyChar(c: char) {
    'a' <= c <= 'z' || '0' <= c <= '9' || c == '_' || c == '.' || c == '*' || c == '-'
  }

  /** `key.toLowerCase().replace(/[^a-z0-9_.*-]/g, '-')`. */
  function SafeKey(k: string): (r: string)
    ensures |r| == |k|
    ensures forall i :: 0 <= i < |k| ==> IsSafeKeyChar(r[i])
    ensures forall i :: 0 <= i < |k| && IsSafeKeyChar(LowerChar(k[i])) ==> r[i] == LowerChar(k[i])
    ensures forall i :: 0 <= i < |k| && !IsSafeKeyChar(LowerChar(k[i])) ==> r[i] == '-'
  {
    seq(|k|, i requires 0 <= i < |k| => if IsSafeKeyChar(LowerChar(k[i])) then LowerChar(k[i]) else '-')
  }

  /** A lower-case key in the key grammar is its own serialised form. */
  lemma SafeKeyOfValidKey(k: string)
    requires ValidKey(k) && IsLowerCase(k)
    ensures SafeKey(k) == k
  {
    forall i | 0 <= i < |k| ensures SafeKey(k)[i] == k[i] {
      assert LowerChar(k[i]) == k[i];
    }
  }

  /** `String(value).replace(/"/g, '\\"')`. */
  function EscapeQuotes(v: string): (r: string)
    ensures |r| > 0 ==> r[0] != '"'
    ensures forall c :: c in r ==> c in v || c == '\\'
    decreases |v|
  {
    if |v| == 0 then ""
    else (if v[0] == '"' then "\\\"" else [v[0]]) + EscapeQuotes(v[1..])
  }

  /** Unescaping undoes escaping. */
  lemma {:induction false} UnescapeEscapeQuotes(v: string)
    ensures Unescape(EscapeQuotes(v)) == v
    decreases |v|
  {
    if |v| > 0 {
      var rest := EscapeQuotes(v[1..]);
      UnescapeEscapeQuotes(v[1..]);
      if v[0] == '"' {
        assert EscapeQuotes(v) == "\\\"" + rest;
        assert (EscapeQuotes(v))[2..] == rest;
      } else {
        assert EscapeQuotes(v) == [v[0]] + rest;
        assert (EscapeQuotes(v))[1..] == rest;
      }
      assert [v[0]] + v[1..] == v;
    }
  }

  /** One serialised member: `safeKey="safeValue"`. */
  function SerializeEntry(key: string, value: string): string {
    SafeKey(key) + "=\"" + EscapeQuotes(value) + "\""
  }

  /** The entries `serializeStructuredDictionary` keeps: those with a
      non-empty key. */
  function KeptEntries(entries: seq<(string, string)>): (r: seq<(string, string)>)
    ensures forall e :: e in r <==> e in entries && e.0 != ""
    ensures (forall e :: e in entries ==> e.0 != "") ==> r == entries
  {
    if |entries| == 0 then []
    else (if entries[0].0 != "" then [entries[0]] else []) + KeptEntries(entries[1..])
  }

  function SerializedMembers(entries: seq<(string, string)>): (r: seq<string>)
    ensures |r| == |entries|
    ensures forall i :: 0 <= i < |entries| ==> r[i] == SerializeEntry(entries[i].0, entries[i].1)
  {
    seq(|entries|, i requires 0 <= i < |entries| => SerializeEntry(entries[i].0, entries[i].1))
  }

  /** `serializeStructuredDictionary` over the record's entries in
      `Object.entries` order: `''` when no entry has a key, otherwise the
      members joined with `, `. */
  function SerializeStructuredDictionary(entries: seq<(string, string)>): (r: string)
    ensures |KeptEntries(entries)| == 0 ==> r == ""
  {
    var kept := KeptEntries(entries);
    if |kept| == 0 then "" else Join(SerializedMembers(kept), ", ")
  }

  /** The dictionary the entries describe, a later entry overriding an
      earlier one with the same key. */
  function ToDictionaryFrom(entries: seq<(string, string)>, acc: SfDictionary): (d: SfDictionary)
    decreases |entries|
  {
    if |entries| == 0 then acc
    else ToDictionaryFrom(entries[1..], acc[entries[0].0 := SfString(entries[0].1)])
  }

  function ToDictionary(entries: seq<(string, string)>): SfDictionary {
    ToDictionaryFrom(entries, map[])
  }

  // ---------------------------------------------------------------------
  // Round trip

  /** Keys in the grammar hold none of the characters that delimit
      members and values, and are already trimmed. */
  lemma ValidKeyShape(k: string)
    requires ValidKey(k)
    ensures '=' !in k && ',' !in k && Trim(k) == k
  {
    forall i | 0 <= i < |k| ensures k[i] != '=' && k[i] != ',' && !IsSpace(k[i]) {
      if i > 0 { assert IsKeyChar(k[i]); }
    }
    TrimNoSpaceEnds(k);
  }

  /** A bare key in the grammar is a flag. */
  lemma ParseBareKey(k: string)
    requires ValidKey(k)
    ensures ParseMember(k) == Some((k, SfFlag))
  {
    ValidKeyShape(k);
    SplitNoSeparator(k, '=');
  }

  /** `key=value` with a key in the grammar and a trimmed value: the value is
      everything after the first `=`, later `=` signs included, read by
      `MemberValue`. */
  lemma ParseKeyValueMember(k: string, v: string)
    requires ValidKey(k) && Trim(v) == v
    ensures ParseMember(k + "=" + v) == Some((k, MemberValue(v)))
  {
    ValidKeyShape(k);
    var m := k + "=" + v;
    assert m == k + ['='] + v;
    SplitTailJoin(k, '=', v);
    SplitAtSeparator(k, '=', v);
    assert MemberKey(m) == k;
  }

  /** A serialised member with a lower-case key in the grammar parses back
      to its key and string value. */
  lemma SerializeEntryParses(k: string, v: string)
    requires ValidKey(k) && IsLowerCase(k)
    ensures ParseMember(SerializeEntry(k, v)) == Some((k, SfString(v)))
  {
    SafeKeyOfValidKey(k);
    var e := EscapeQuotes(v);
    var quoted := "\"" + e + "\"";
    assert SerializeEntry(k, v) == k + "=" + quoted;
    TrimNoSpaceEnds(quoted);
    ParseKeyValueMember(k, quoted);
    assert Inner(quoted) == e;
    UnescapeEscapeQuotes(v);
  }

  /** A serialised member is non-empty, trimmed, and free of commas when its
      value is. */
  lemma SerializeEntryShape(k: string, v: string)
    requires ValidKey(k) && IsLowerCase(k) && ',' !in v
    ensures var m := SerializeEntry(k, v);
      m != "" && ',' !in m && Trim(m) == m && !IsSpace(m[0]) && !IsSpace(m[|m| - 1])
  {
    SafeKeyOfValidKey(k);
    var m := SerializeEntry(k, v);
    assert !IsSpace(m[0]) && !IsSpace(m[|m| - 1]);
    TrimNoSpaceEnds(m);
    assert ',' !in k by {
      forall i | 0 <= i < |k| ensures k[i] != ',' {
        if i > 0 { assert IsKeyChar(k[i]); }
      }
    }
    assert ',' !in EscapeQuotes(v);
  }

  lemma {:induction false} ParseSerializedMembers(entries: seq<(string, string)>, acc: SfDictionary)
    requires forall i :: 0 <= i < |entries| ==> ValidKey(entries[i].0) && IsLowerCase(entries[i].0)
    ensures ParseMembers(SerializedMembers(entries), acc) == DictionaryParse(true, Some(ToDictionaryFrom(entries, acc)))
    decreases |entries|
  {
    if |entries| > 0 {
      var ms := SerializedMembers(entries);
      SerializeEntryParses(entries[0].0, entries[0].1);
      assert ms[1..] == SerializedMembers(entries[1..]);
      ParseSerializedMembers(entries[1..], acc[entries[0].0 := SfString(entries[0].1)]);
    }
  }

  /** The first character of a join is that of the first part, and its last
      that of the last part. */
  lemma {:induction false} JoinEnds(parts: seq<string>, sep: string)
    requires |parts| > 0 && forall i :: 0 <= i < |parts| ==> parts[i] != ""
    ensures var j := Join(parts, sep);
      |j| > 0 && j[0] == parts[0][0] && j[|j| - 1] == parts[|parts| - 1][|parts[|parts| - 1]| - 1]
    decreases |parts|
  {
    if |parts| > 1 {
      JoinEnds(parts[1..], sep);
    }
  }

  lemma SerializedMembersShape(entries: seq<(string, string)>)
    requires forall i :: 0 <= i < |entries| ==> ValidKey(entries[i].0) && IsLowerCase(entries[i].0) && ',' !in entries[i].1
    ensures forall m :: m in SerializedMembers(entries) ==>
      m != "" && ',' !in m && Trim(m) == m && !IsSpace(m[0]) && !IsSpace(m[|m| - 1])
  {
    var ms := SerializedMembers(entries);
    forall m | m in ms
      ensures m != "" && ',' !in m && Trim(m) == m && !IsSpace(m[0]) && !IsSpace(m[|m| - 1])
    {
      var i :| 0 <= i < |ms| && ms[i] == m;
      SerializeEntryShape(entries[i].0, entries[i].1);
    }
  }

  /** Joined members without white space at their ends are already
      trimmed. */
  lemma JoinTrimmed(ms: seq<string>, sep: string)
    requires |ms| > 0
    requires forall m :: m in ms ==> m != "" && !IsSpace(m[0]) && !IsSpace(m[|m| - 1])
    ensures Trim(Join(ms, sep)) == Join(ms, sep) && Join(ms, sep) != ""
  {
    assert ms[0] in ms && ms[|ms| - 1] in ms;
    forall i | 0 <= i < |ms| ensures ms[i] != "" {
      assert ms[i] in ms;
    }
    JoinEnds(ms, sep);
    TrimNoSpaceEnds(Join(ms, sep));
  }

  /** The serialised text of non-empty valid entries is trimmed and splits
      back into its members. */
  lemma SerializedSplits(entries: seq<(string, string)>)
    requires |entries| > 0
    requires forall i :: 0 <= i < |entries| ==> ValidKey(entries[i].0) && IsLowerCase(entries[i].0) && ',' !in entries[i].1
    ensures var s := SerializeStructuredDictionary(entries);
      Trim(s) == s && SplitCsv(s) == SerializedMembers(entries)
  {
    assert forall e :: e in entries ==> e.0 != "";
    var ms := SerializedMembers(entries);
    assert SerializeStructuredDictionary(entries) == Join(ms, ", ");
    SerializedMembersShape(entries);
    JoinTrimmed(ms, ", ");
    SplitCsvJoin(ms);
  }

  /** Round trip: serialising entries whose keys are lower-case and in the
      key grammar and whose values have no comma, then parsing the result,
      gives exactly the dictionary of the entries. */
  lemma SerializeThenParse(entries: seq<(string, string)>)
    requires forall i :: 0 <= i < |entries| ==> ValidKey(entries[i].0) && IsLowerCase(entries[i].0) && ',' !in entries[i].1
    ensures ParseStructuredDictionary(SerializeStructuredDictionary(entries)) == DictionaryParse(true, Some(ToDictionary(entries)))
  {
    if |entries| == 0 {
      assert KeptEntries(entries) == [];
    } else {
      var s := SerializeStructuredDictionary(entries);
      SerializedSplits(entries);
      ParseSerializedMembers(entries, map[]);
      assert s != "" by {
        assert SplitCsv("") == [];
      }
      calc {
        ParseStructuredDictionary(s);
        ParseMembers(SplitCsv(s), map[]);
        ParseMembers(SerializedMembers(entries), map[]);
      }
    }
  }

  /** The dictionary a string record stands for. */
  function AsDictionary(m: map<string, string>): (d: SfDictionary)
    ensures d.Keys == m.Keys
    ensures forall k :: k in m ==> d[k] == SfString(m[k])
  {
    map k | k in m :: SfString(m[k])
  }

  /** `entries` lists the record `m` (`Object.entries`): every entry is a
      pair of `m`, and every key of `m` has an entry. */
  ghost predicate EntriesOf(entries: seq<(string, string)>, m: map<string, string>) {
    && (forall i :: 0 <= i < |entries| ==> entries[i].0 in m && m[entries[i].0] == entries[i].1)
    && (forall k :: k in m ==> exists i :: 0 <= i < |entries| && entries[i].0 == k)
  }

  /** Collecting pairs of `m` into a dictionary that already agrees with `m`
      keeps it in agreement, and adds every listed key. */
  lemma {:induction false} ToDictionaryFromAgrees(entries: seq<(string, string)>, m: map<string, string>, acc: SfDictionary)
    requires forall i :: 0 <= i < |entries| ==> entries[i].0 in m && m[entries[i].0] == entries[i].1
    requires forall k :: k in acc ==> k in m && acc[k] == SfString(m[k])
    ensures var d := ToDictionaryFrom(entries, acc);
      && (forall k :: k in d ==> k in m && d[k] == SfString(m[k]))
      && acc.Keys <= d.Keys
      && (forall i :: 0 <= i < |entries| ==> entries[i].0 in d)
    decreases |entries|
  {
    if |entries| > 0 {
      var acc' := acc[entries[0].0 := SfString(entries[0].1)];
      ToDictionaryFromAgrees(entries[1..], m, acc');
      assert forall i :: 1 <= i < |entries| ==> entries[i] == entries[1..][i - 1];
    }
  }

  lemma ToDictionaryOfEntries(entries: seq<(string, string)>, m: map<string, string>)
    requires EntriesOf(entries, m)
    ensures ToDictionary(entries) == AsDictionary(m)
  {
    ToDictionaryFromAgrees(entries, m, map[]);
    var d := ToDictionary(entries);
    assert d.Keys == m.Keys by {
      forall k | k in m ensures k in d {
        var i :| 0 <= i < |entries| && entries[i].0 == k;
      }
    }
  }

  /** Round trip for a record: serialising a record whose keys are
      lower-case and in the key grammar and whose values have no comma, and
      parsing the text, gives the record back. */
  lemma SerializeRecordThenParse(entries: seq<(string, string)>, m: map<string, string>)
    requires EntriesOf(entries, m)
    requires forall k :: k in m ==> ValidKey(k) && IsLowerCase(k) && ',' !in m[k]
    ensures ParseStructuredDictionary(SerializeStructuredDictionary(entries)) == DictionaryParse(true, Some(AsDictionary(m)))
  {
    SerializeThenParse(entries);
    ToDictionaryOfEntries(entries, m);
  }
}
