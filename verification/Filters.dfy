/** The SCIM filter the adapter searches with, and how a provider reads it
    (the quoted-string fragment of section 3.4.2.2 of RFC 7644). */
module Filters {
  import opened Base

  /** strings.ReplaceAll for a one-character pattern. */
  function ReplaceAll(s: string, c: char, with: string): string {
    if s == [] then [] else (if s[0] == c then with else [s[0]]) + ReplaceAll(s[1..], c, with)
  }

  function EscapeFilterValue(value: string): string {
    ReplaceAll(ReplaceAll(value, '\\', "\\\\"), '\"', "\\\"")
  }

  function FilterFor(attribute: string, subjectID: string): string {
    attribute + " eq \"" + EscapeFilterValue(subjectID) + "\""
  }

  /** The text up to the closing quote, unescaped, and what follows it. */
  function ScanQuoted(s: string): Option<(string, string)> {
    if s == [] then None
    else if s[0] == '\"' then Some(("", s[1..]))
    else if s[0] == '\\' && |s| == 1 then None
    else
      var (c, rest) := if s[0] == '\\' then (s[1], s[2..]) else (s[0], s[1..]);
      match ScanQuoted(rest)
      case None => None
      case Some((value, after)) => Some(([c] + value, after))
  }

  function UpToSpace(s: string): string {
    if s == [] || s[0] == ' ' then [] else [s[0]] + UpToSpace(s[1..])
  }

  /** attribute SP "eq" SP quoted-string, and nothing after it. */
  function ParseFilter(filter: string): Option<(string, string)> {
    var attribute := UpToSpace(filter);
    if |filter| < |attribute| + 5 || filter[|attribute|..|attribute| + 5] != " eq \"" then None
    else
      match ScanQuoted(filter[|attribute| + 5..])
      case Some((value, after)) => if after == "" then Some((attribute, value)) else None
      case None => None
  }

  /** The two replacement passes do what one pass over the characters would. */
  lemma {:induction false} EscapeCharwise(value: string)
    ensures EscapeFilterValue(value)
         == if value == [] then []
            else (if value[0] == '\\' || value[0] == '\"' then ['\\', value[0]] else [value[0]])
                 + EscapeFilterValue(value[1..])
  {
    if value != [] {
      var rest := ReplaceAll(value[1..], '\\', "\\\\");
      var once := ReplaceAll(value, '\\', "\\\\");
      if value[0] == '\\' {
        assert once == ['\\', '\\'] + rest;
        assert once[1..] == ['\\'] + rest && once[1..][1..] == rest;
        assert ReplaceAll(once[1..], '\"', "\\\"") == ['\\'] + ReplaceAll(rest, '\"', "\\\"");
      } else {
        assert once == [value[0]] + rest;
        assert once[1..] == rest;
      }
    }
  }

  /** Scanning an escaped value stops exactly at the closing quote and gives
      the value back, whatever quotes and backslashes it contains. */
  lemma {:induction false} EscapeRoundTrips(value: string, after: string)
    ensures ScanQuoted(EscapeFilterValue(value) + "\"" + after) == Some((value, after))
  {
    EscapeCharwise(value);
    var s := EscapeFilterValue(value) + "\"" + after;
    if value == [] {
      assert s[1..] == after;
    } else {
      var rest := EscapeFilterValue(value[1..]) + "\"" + after;
      EscapeRoundTrips(value[1..], after);
      assert value == [value[0]] + value[1..];
      if value[0] == '\\' || value[0] == '\"' {
        assert s == ['\\', value[0]] + rest;
        assert s[2..] == rest;
      } else {
        assert s == [value[0]] + rest;
        assert s[1..] == rest;
      }
    }
  }

  lemma {:induction false} UpToSpaceStops(attribute: string, rest: string)
    requires ' ' !in attribute
    ensures UpToSpace(attribute + [' '] + rest) == attribute
  {
    var s := attribute + [' '] + rest;
    if attribute != [] {
      assert s[1..] == attribute[1..] + [' '] + rest;
      UpToSpaceStops(attribute[1..], rest);
    }
  }

  /** The provider reads back exactly the attribute and the subject searched for. */
  lemma FilterRoundTrips(attribute: string, subjectID: string)
    requires ' ' !in attribute
    ensures ParseFilter(FilterFor(attribute, subjectID)) == Some((attribute, subjectID))
  {
    var filter, quoted := FilterFor(attribute, subjectID), EscapeFilterValue(subjectID) + "\"";
    assert filter == attribute + [' '] + ("eq \"" + quoted);
    UpToSpaceStops(attribute, "eq \"" + quoted);
    EscapeRoundTrips(subjectID, "");
    assert quoted + "" == quoted;
    assert filter[|attribute|..|attribute| + 5] == " eq \"";
    assert filter[|attribute| + 5..] == quoted;
  }
}
