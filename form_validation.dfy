/**
 * The contact form's client-side check: the object built from the form's
 * entries, and validateForm with its e-mail pattern
 * /^[^\s@]+@[^\s@]+\.[^\s@]+$/.
 */
module FormValidation {

  /** `\s` in an ECMAScript regular expression: the WhiteSpace and
      LineTerminator code points. */
  predicate IsSpace(c: char) {
    var n := c as int;
    (0x09 <= n <= 0x0D) || n == 0x20 || n == 0xA0 || n == 0x1680
    || (0x2000 <= n <= 0x200A) || n == 0x2028 || n == 0x2029
    || n == 0x202F || n == 0x205F || n == 0x3000 || n == 0xFEFF
  }

  /** The character class `[^\s@]`. */
  predicate Plain(c: char) {
    !IsSpace(c) && c != '@'
  }

  /** `[^\s@]+` matches the whole of `t`. */
  predicate PlainRun(t: string) {
    |t| > 0 && forall k :: 0 <= k < |t| ==> Plain(t[k])
  }

  /** `/^[^\s@]+@[^\s@]+\.[^\s@]+$/.test(s)`: `s` is three runs of `[^\s@]`
      joined by an '@' at `i` and a '.' at `j`. Both anchors are present and
      there is no multiline flag, so the match must cover all of `s`. */
  predicate EmailRegexTest(s: string) {
    exists i, j | 0 < i < j < |s| ::
      && s[i] == '@' && s[j] == '.'
      && PlainRun(s[..i]) && PlainRun(s[i + 1..j]) && PlainRun(s[j + 1..])
  }

  // ----- a plain characterisation of the pattern -----

  predicate NoWhitespace(s: string) {
    forall k :: 0 <= k < |s| ==> !IsSpace(s[k])
  }

  /** Index of the first `c` in `s`, or `|s|` when there is none. */
  function IndexOf(s: string, c: char): (i: nat)
    ensures i <= |s|
    ensures i < |s| ==> s[i] == c
    ensures forall k :: 0 <= k < i ==> s[k] != c
  {
    if |s| == 0 then 0
    else if s[0] == c then 0
    else 1 + IndexOf(s[1..], c)
  }

  /** `d` has a '.' that is neither its first nor its last character. */
  predicate HasInteriorDot(d: string) {
    exists p | 0 < p < |d| - 1 :: d[p] == '.'
  }

  /** No whitespace, exactly one '@', a non-empty part before it, and a
      domain after it with an interior '.'. */
  predicate EmailShape(s: string) {
    && NoWhitespace(s)
    && multiset(s)['@'] == 1
    && var at := IndexOf(s, '@');
       0 < at < |s| && HasInteriorDot(s[at + 1..])
  }

  /** A character that occurs once in `s` occurs nowhere but at `i`. */
  lemma SingleOccurrence(s: string, c: char, i: nat)
    requires i < |s| && s[i] == c && multiset(s)[c] == 1
    ensures forall k :: 0 <= k < |s| && k != i ==> s[k] != c
  {
    var before, after := s[..i], s[i + 1..];
    assert s == before + [s[i]] + after;
    assert multiset(s) == multiset(before) + multiset{c} + multiset(after);
    assert c !in before && c !in after;
    forall k | 0 <= k < |s| && k != i
      ensures s[k] != c
    {
      if k < i {
        assert s[k] == before[k];
      } else {
        assert s[k] == after[k - i - 1];
      }
    }
  }

  /** A character found at `i` and nowhere else occurs once in `s`. */
  lemma OnlyOccurrence(s: string, c: char, i: nat)
    requires i < |s| && s[i] == c
    requires forall k :: 0 <= k < |s| && k != i ==> s[k] != c
    ensures multiset(s)[c] == 1
  {
    var before, after := s[..i], s[i + 1..];
    assert s == before + [c] + after;
    assert c !in before by {
      forall k | 0 <= k < |before| ensures before[k] != c {
        assert before[k] == s[k];
      }
    }
    assert c !in after by {
      forall k | 0 <= k < |after| ensures after[k] != c {
        assert after[k] == s[i + 1 + k];
      }
    }
  }

  /** Inside a match, every character but the '@' belongs to `[^\s@]`. */
  lemma MatchIsPlainOutsideAt(s: string, i: nat, j: nat)
    requires 0 < i < j < |s| && s[j] == '.'
    requires PlainRun(s[..i]) && PlainRun(s[i + 1..j]) && PlainRun(s[j + 1..])
    ensures forall k :: 0 <= k < |s| && k != i ==> Plain(s[k])
  {
    var local, mid, tld := s[..i], s[i + 1..j], s[j + 1..];
    forall k | 0 <= k < |s| && k != i
      ensures Plain(s[k])
    {
      if k < i {
        assert s[k] == local[k];
      } else if k < j {
        assert s[k] == mid[k - i - 1];
      } else if j < k {
        assert s[k] == tld[k - j - 1];
      }
    }
  }

  /** A match with its '@' at `i` and its '.' at `j` has the plain shape. */
  lemma MatchHasShape(s: string, i: nat, j: nat)
    requires 0 < i < j < |s| && s[i] == '@' && s[j] == '.'
    requires PlainRun(s[..i]) && PlainRun(s[i + 1..j]) && PlainRun(s[j + 1..])
    ensures EmailShape(s)
  {
    MatchIsPlainOutsideAt(s, i, j);
    assert NoWhitespace(s) by {
      forall k | 0 <= k < |s| ensures !IsSpace(s[k]) {
        if k != i {
          assert Plain(s[k]);
        }
      }
    }
    OnlyOccurrence(s, '@', i);
    var at := IndexOf(s, '@');
    assert at == i;
    var domain := s[at + 1..];
    assert |s[j + 1..]| > 0 && |s[i + 1..j]| > 0;
    assert 0 < j - i - 1 < |domain| - 1 && domain[j - i - 1] == '.';
  }

  lemma RegexImpliesShape(s: string)
    requires EmailRegexTest(s)
    ensures EmailShape(s)
  {
    var i, j :| 0 < i < j < |s| && s[i] == '@' && s[j] == '.'
      && PlainRun(s[..i]) && PlainRun(s[i + 1..j]) && PlainRun(s[j + 1..]);
    MatchHasShape(s, i, j);
  }

  lemma ShapeImpliesRegex(s: string)
    requires EmailShape(s)
    ensures EmailRegexTest(s)
  {
    var at := IndexOf(s, '@');
    var domain := s[at + 1..];
    var p :| 0 < p < |domain| - 1 && domain[p] == '.';
    var j := at + 1 + p;
    SingleOccurrence(s, '@', at);
    assert s[j] == '.';
    var local, mid, tld := s[..at], s[at + 1..j], s[j + 1..];
    assert PlainRun(local) by {
      forall k | 0 <= k < |local| ensures Plain(local[k]) {
        assert local[k] == s[k];
      }
    }
    assert PlainRun(mid) by {
      forall k | 0 <= k < |mid| ensures Plain(mid[k]) {
        assert mid[k] == s[at + 1 + k];
      }
    }
    assert PlainRun(tld) by {
      forall k | 0 <= k < |tld| ensures Plain(tld[k]) {
        assert tld[k] == s[j + 1 + k];
      }
    }
  }

  /** The pattern matches exactly the addresses of the plain characterisation. */
  lemma RegexIffShape(s: string)
    ensures EmailRegexTest(s) <==> EmailShape(s)
  {
    if EmailRegexTest(s) {
      RegexImpliesShape(s);
    }
    if EmailShape(s) {
      ShapeImpliesRegex(s);
    }
  }

  // ----- validateForm -----

  /** `data[key]` is truthy: the key is present and its value is not the
      empty string. */
  predicate Filled(data: map<string, string>, key: string) {
    key in data && data[key] != ""
  }

  /** validateForm: rejects a missing or empty name, email or message, and
      otherwise answers whether the address matches the pattern. */
  function ValidateForm(data: map<string, string>): (ok: bool)
    ensures ok <==>
      && Filled(data, "name") && Filled(data, "email") && Filled(data, "message")
      && EmailShape(data["email"])
  {
    if !Filled(data, "name") || !Filled(data, "email") || !Filled(data, "message") then
      false
    else
      RegexIffShape(data["email"]);
      EmailRegexTest(data["email"])
  }

  // ----- the object built from the form's entries -----

  /** The object after `formObject[key] = value` for each entry in order. */
  function FormObject(entries: seq<(string, string)>): map<string, string>
  {
    if |entries| == 0 then map[]
    else
      var last := entries[|entries| - 1];
      FormObject(entries[..|entries| - 1])[last.0 := last.1]
  }

  /** Entry `i` is the last one with its key. */
  ghost predicate IsLastFor(entries: seq<(string, string)>, i: int) {
    && 0 <= i < |entries|
    && forall j :: i < j < |entries| ==> entries[j].0 != entries[i].0
  }

  /** The object has exactly the entries' keys. */
  lemma {:induction false} FormObjectKeys(entries: seq<(string, string)>)
    ensures FormObject(entries).Keys == set i | 0 <= i < |entries| :: entries[i].0
  {
    if |entries| > 0 {
      var n := |entries| - 1;
      var prefix := entries[..n];
      FormObjectKeys(prefix);
      var keys := set i | 0 <= i < |entries| :: entries[i].0;
      var prefixKeys := set i | 0 <= i < n :: prefix[i].0;
      forall k | k in keys
        ensures k in prefixKeys + {entries[n].0}
      {
        var i :| 0 <= i < |entries| && entries[i].0 == k;
        if i < n {
          assert prefix[i].0 == k;
        }
      }
      forall k | k in prefixKeys
        ensures k in keys
      {
        var i :| 0 <= i < n && prefix[i].0 == k;
        assert entries[i].0 == k;
      }
      assert keys == prefixKeys + {entries[n].0};
    }
  }

  /** On a repeated key the last value wins. */
  lemma {:induction false} FormObjectLastWins(entries: seq<(string, string)>)
    ensures forall i :: IsLastFor(entries, i) ==> entries[i].0 in FormObject(entries)
    ensures forall i :: IsLastFor(entries, i) ==> FormObject(entries)[entries[i].0] == entries[i].1
  {
    if |entries| > 0 {
      var n := |entries| - 1;
      var prefix := entries[..n];
      FormObjectLastWins(prefix);
      forall i | IsLastFor(entries, i) && i < n
        ensures IsLastFor(prefix, i)
      {
        assert prefix[i] == entries[i];
        forall j | i < j < n ensures prefix[j].0 != prefix[i].0 {
          assert prefix[j] == entries[j];
        }
      }
    }
  }

  /** The form-data fold of the submit handler, one entry at a time. */
  method CollectFormData(entries: seq<(string, string)>) returns (data: map<string, string>)
    ensures data == FormObject(entries)
  {
    data := map[];
    for n := 0 to |entries|
      invariant data == FormObject(entries[..n])
    {
      assert entries[..n + 1][..n] == entries[..n];
      data := data[entries[n].0 := entries[n].1];
    }
    assert entries[..|entries|] == entries;
  }
}
