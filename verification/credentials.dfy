/** Reading the xREL client credentials from the `.env` file next to the
    getnfo cog (`load_credentials` in getnfo/getnfo.py). The file system is an
    input: the file is absent, or present with the lines `splitlines()`
    gives. */
module Credentials {
  import opened Wrappers
  import opened Text

  const Eq := "="
  const ClientIdKey := "CLIENT_ID"
  const ClientSecretKey := "CLIENT_SECRET"

  /** One line as the dictionary comprehension reads it: the stripped text
      before the first `=` and the stripped text between the first and the
      second `=`; `None` where `split("=")[1]` raises `IndexError`. */
  function ParseLine(line: string): (r: Option<(string, string)>)
    ensures r.None? <==> !Contains(line, Eq)
    ensures r.Some? ==> r.value == (Strip(Before(line, Eq)), Strip(Before(After(line, Eq), Eq)))
  {
    SplitHeads(line, Eq);
    var parts := Split(line, Eq);
    if |parts| >= 2 then Some((Strip(parts[0]), Strip(parts[1]))) else None
  }

  /** What the lines parse to, line by line. */
  function Entries(lines: seq<string>): (es: seq<Option<(string, string)>>)
    ensures |es| == |lines|
    ensures forall i :: 0 <= i < |lines| ==> es[i] == ParseLine(lines[i])
  {
    seq(|lines|, i requires 0 <= i < |lines| => ParseLine(lines[i]))
  }

  /** Building the dictionary from the parsed lines in order: the index of the
      first unparsable line, or the dictionary where later entries overwrite
      earlier ones with the same key. */
  function Collect(es: seq<Option<(string, string)>>): Result<map<string, string>, nat> {
    if |es| == 0 then Success(map[])
    else
      var n := |es| - 1;
      match Collect(es[..n])
      case Failure(i) => Failure(i)
      case Success(m) =>
        match es[n]
        case None => Failure(n)
        case Some(kv) => Success(m[kv.0 := kv.1])
  }

  /** The credentials dictionary, or the index of the line that raised. */
  function ParseCredentials(lines: seq<string>): Result<map<string, string>, nat> {
    Collect(Entries(lines))
  }

  /** Collecting fails exactly at the first unparsable entry. */
  lemma {:induction false} CollectFails(es: seq<Option<(string, string)>>)
    ensures Collect(es).Failure? <==> exists i :: 0 <= i < |es| && es[i].None?
    ensures Collect(es).Failure? ==>
              var i := Collect(es).error;
              i < |es| && es[i].None? && forall j :: 0 <= j < i ==> es[j].Some?
  {
    if |es| > 0 {
      var n := |es| - 1;
      var init := es[..n];
      CollectFails(init);
      assert forall j :: 0 <= j < n ==> init[j] == es[j];
    }
  }

  /** Entry `i` is the last one defining key `k`. */
  predicate LastEntry(es: seq<Option<(string, string)>>, k: string, i: int) {
    && 0 <= i < |es| && es[i].Some? && es[i].value.0 == k
    && forall j :: i < j < |es| ==> !(es[j].Some? && es[j].value.0 == k)
  }

  /** A successful collection holds exactly the keys of the entries, each with
      the value of the last entry defining it. */
  lemma {:induction false} CollectLastWins(es: seq<Option<(string, string)>>, k: string)
    requires Collect(es).Success?
    ensures k in Collect(es).value <==> exists i :: 0 <= i < |es| && es[i].Some? && es[i].value.0 == k
    ensures forall i :: LastEntry(es, k, i) ==> k in Collect(es).value && Collect(es).value[k] == es[i].value.1
  {
    if |es| > 0 {
      var n := |es| - 1;
      var init := es[..n];
      CollectLastWins(init, k);
      assert forall j :: 0 <= j < n ==> init[j] == es[j];
      forall i | LastEntry(es, k, i)
        ensures k in Collect(es).value && Collect(es).value[k] == es[i].value.1
      {
        if i < n {
          assert LastEntry(init, k, i);
        }
      }
    }
  }

  /** Reading fails exactly when some line has no `=` (an empty line
      included), and it fails at the first such line. */
  lemma ParseCredentialsFails(lines: seq<string>)
    ensures ParseCredentials(lines).Failure? <==> exists i :: 0 <= i < |lines| && !Contains(lines[i], Eq)
    ensures ParseCredentials(lines).Failure? ==>
              var i := ParseCredentials(lines).error;
              && i < |lines| && !Contains(lines[i], Eq)
              && forall j :: 0 <= j < i ==> Contains(lines[j], Eq)
  {
    CollectFails(Entries(lines));
  }

  /** The key a line defines; only meaningful for a line with `=`. */
  function KeyOf(line: string): string {
    match ParseLine(line)
    case Some(kv) => kv.0
    case None => ""
  }

  /** Line `i` is the last line defining key `k`. */
  predicate LastDefines(lines: seq<string>, k: string, i: int) {
    && 0 <= i < |lines| && Contains(lines[i], Eq) && KeyOf(lines[i]) == k
    && forall j :: i < j < |lines| ==> !(Contains(lines[j], Eq) && KeyOf(lines[j]) == k)
  }

  /** On success the dictionary holds exactly the keys the lines define, each
      with the value of the last line defining it. */
  lemma ParseCredentialsLastWins(lines: seq<string>, k: string)
    requires ParseCredentials(lines).Success?
    ensures k in ParseCredentials(lines).value <==> exists i :: 0 <= i < |lines| && KeyOf(lines[i]) == k
    ensures forall i :: LastDefines(lines, k, i) ==>
              k in ParseCredentials(lines).value &&
              ParseCredentials(lines).value[k] == ParseLine(lines[i]).value.1
  {
    var es := Entries(lines);
    CollectLastWins(es, k);
    CollectFails(es);
    forall i | LastDefines(lines, k, i)
      ensures LastEntry(es, k, i)
    {
    }
  }

  /** `load_credentials`: `(None, None)` without a file, else the
      `CLIENT_ID` and `CLIENT_SECRET` entries, `None` where missing; the
      index of the offending line when reading raises. */
  function LoadCredentials(envFile: Option<seq<string>>): Result<(Option<string>, Option<string>), nat> {
    match envFile
    case None => Success((None, None))
    case Some(lines) =>
      match ParseCredentials(lines)
      case Failure(i) => Failure(i)
      case Success(m) =>
        Success((if ClientIdKey in m then Some(m[ClientIdKey]) else None,
                 if ClientSecretKey in m then Some(m[ClientSecretKey]) else None))
  }

  /** The client id loaded is the value of the last `CLIENT_ID` line, and is
      `None` when no line defines it; the same for the secret. */
  lemma LoadCredentialsSpec(lines: seq<string>, i: int)
    requires ParseCredentials(lines).Success?
    ensures LastDefines(lines, ClientIdKey, i) ==>
              LoadCredentials(Some(lines)) == Success((Some(ParseLine(lines[i]).value.1), LoadCredentials(Some(lines)).value.1))
    ensures LastDefines(lines, ClientSecretKey, i) ==>
              LoadCredentials(Some(lines)).value.1 == Some(ParseLine(lines[i]).value.1)
    ensures (forall j :: 0 <= j < |lines| ==> KeyOf(lines[j]) != ClientIdKey) ==>
              LoadCredentials(Some(lines)).value.0 == None
    ensures (forall j :: 0 <= j < |lines| ==> KeyOf(lines[j]) != ClientSecretKey) ==>
              LoadCredentials(Some(lines)).value.1 == None
  {
    ParseCredentialsLastWins(lines, ClientIdKey);
    ParseCredentialsLastWins(lines, ClientSecretKey);
  }

  /** In `a=b` with no `=` in `a`, the first `=` is the one after `a`. */
  lemma FirstEq(a: string, b: string)
    requires !Contains(a, Eq)
    ensures IndexOf(a + Eq + b, Eq) == Some(|a|)
    ensures Before(a + Eq + b, Eq) == a
    ensures Contains(a + Eq + b, Eq) && After(a + Eq + b, Eq) == b
  {
    var s := a + Eq + b;
    ContainsIff(a, Eq);
    forall k | 0 <= k < |a|
      ensures !OccursAt(s, Eq, k)
    {
      assert s[k..k + 1] == a[k..k + 1];
      assert !OccursAt(a, Eq, k);
    }
    assert s[|a|..|a| + 1] == Eq;
    IndexOfIs(s, Eq, |a|);
    assert s[..|a|] == a;
    assert s[|a| + 1..] == b;
  }

  /** A line written as `key=value` reads back as the stripped key and value
      when neither holds `=`. */
  lemma ParseWrittenLine(key: string, value: string)
    requires !Contains(key, Eq) && !Contains(value, Eq)
    ensures ParseLine(key + Eq + value) == Some((Strip(key), Strip(value)))
  {
    FirstEq(key, value);
  }

  /** Whatever follows a second `=` is dropped: `key=value=rest` reads as
      `key=value`. */
  lemma ParseDropsAfterSecondEq(key: string, value: string, rest: string)
    requires !Contains(key, Eq) && !Contains(value, Eq)
    ensures ParseLine(key + Eq + value + Eq + rest) == Some((Strip(key), Strip(value)))
  {
    assert key + Eq + value + Eq + rest == key + Eq + (value + Eq + rest);
    FirstEq(key, value + Eq + rest);
    FirstEq(value, rest);
  }

  /** A file of one line defining key `k` loads `k`'s value when `k` is one
      of the two credentials. */
  lemma LoadSingleLine(line: string, k: string, v: string)
    requires ParseLine(line) == Some((k, v))
    ensures LoadCredentials(Some([line])) ==
              Success((if k == ClientIdKey then Some(v) else None, if k == ClientSecretKey then Some(v) else None))
  {
    ParseSingleLine(line, k, v);
    var m := map[k := v];
    assert ClientIdKey in m <==> k == ClientIdKey;
    assert ClientSecretKey in m <==> k == ClientSecretKey;
  }

  /** A one-line file parses to the one-key dictionary of its line. */
  lemma ParseSingleLine(line: string, k: string, v: string)
    requires ParseLine(line) == Some((k, v))
    ensures ParseCredentials([line]) == Success(map[k := v])
  {
    assert Entries([line]) == [Some((k, v))];
    CollectOne(k, v);
  }

  /** Collecting a single entry gives the one-key dictionary. */
  lemma CollectOne(k: string, v: string)
    ensures Collect([Some((k, v))]) == Success(map[k := v])
  {
    var es := [Some((k, v))];
    assert es[..0] == [];
    assert Collect(es[..0]) == Success(map[]);
  }
}
