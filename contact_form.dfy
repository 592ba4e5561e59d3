/**
 * The contact form: its submit listener (collect the entries, validate,
 * show a banner, reset on success) and showMessage's edit of the form's
 * child list, with the banner's later removal as an explicit step.
 */
module ContactForm {
  import opened Wrappers
  import FormValidation

  /** The type tag of a banner, which selects its colours. */
  datatype MessageType = Success | Error

  /** A child of the form: a `.form-message` banner or any other element.
      `id` stands for the node's identity. */
  datatype Node =
    | Banner(id: nat, kind: MessageType, text: string)
    | Other(id: nat)

  /** A form control: its name attribute, current value and default value. */
  datatype Field = Field(name: string, value: string, defaultValue: string)

  const SuccessText := "Thank you for your message! I will get back to you within 24 hours."
  const ErrorText := "Please fill in all required fields correctly."

  // ----- the child list -----

  function BannerCount(s: seq<Node>): nat {
    if |s| == 0 then 0
    else (if s[0].Banner? then 1 else 0) + BannerCount(s[1..])
  }

  /** The children that are not banners, in order. */
  function Others(s: seq<Node>): seq<Node> {
    if |s| == 0 then []
    else (if s[0].Banner? then [] else [s[0]]) + Others(s[1..])
  }

  /** The list after `existingMessage.remove()`, where `existingMessage` is
      the first banner (nothing changes when there is none). */
  function WithoutFirstBanner(s: seq<Node>): seq<Node> {
    if |s| == 0 then []
    else if s[0].Banner? then s[1..]
    else [s[0]] + WithoutFirstBanner(s[1..])
  }

  /** The list after `node.remove()` for the node with identity `id`; a node
      that is no longer attached leaves the list as it is. */
  function Detach(s: seq<Node>, id: nat): seq<Node> {
    if |s| == 0 then []
    else (if s[0].id == id then [] else [s[0]]) + Detach(s[1..], id)
  }

  predicate DistinctIds(s: seq<Node>) {
    forall i, j :: 0 <= i < j < |s| ==> s[i].id != s[j].id
  }

  predicate IsFirstBanner(s: seq<Node>, i: int) {
    0 <= i < |s| && s[i].Banner? && forall j :: 0 <= j < i ==> !s[j].Banner?
  }

  /** Removing the first banner takes one banner away, if there is one. */
  lemma {:induction false} WithoutFirstBannerCount(s: seq<Node>)
    ensures BannerCount(WithoutFirstBanner(s)) == if BannerCount(s) == 0 then 0 else BannerCount(s) - 1
  {
    if |s| > 0 && !s[0].Banner? {
      var rest := WithoutFirstBanner(s[1..]);
      WithoutFirstBannerCount(s[1..]);
      assert ([s[0]] + rest)[1..] == rest;
    }
  }

  /** Removing the first banner keeps every other child in order. */
  lemma {:induction false} WithoutFirstBannerKeepsOthers(s: seq<Node>)
    ensures Others(WithoutFirstBanner(s)) == Others(s)
  {
    if |s| > 0 && !s[0].Banner? {
      var rest := WithoutFirstBanner(s[1..]);
      WithoutFirstBannerKeepsOthers(s[1..]);
      assert ([s[0]] + rest)[1..] == rest;
    }
  }

  /** Removing the first banner is cutting it out at its index. */
  lemma {:induction false} WithoutFirstBannerAt(s: seq<Node>, i: nat)
    requires IsFirstBanner(s, i)
    ensures WithoutFirstBanner(s) == s[..i] + s[i + 1..]
  {
    if i > 0 {
      assert IsFirstBanner(s[1..], i - 1);
      WithoutFirstBannerAt(s[1..], i - 1);
      assert s[1..][..i - 1] == s[1..i];
      assert s[1..][i..] == s[i + 1..];
      assert s[..i] == [s[0]] + s[1..i];
    }
  }

  /** Without a banner there is nothing to remove. */
  lemma {:induction false} WithoutFirstBannerNone(s: seq<Node>)
    requires forall j :: 0 <= j < |s| ==> !s[j].Banner?
    ensures WithoutFirstBanner(s) == s
  {
    if |s| > 0 {
      WithoutFirstBannerNone(s[1..]);
    }
  }

  /** Removing a node that is not attached changes nothing. */
  lemma {:induction false} DetachAbsent(s: seq<Node>, id: nat)
    requires forall k :: 0 <= k < |s| ==> s[k].id != id
    ensures Detach(s, id) == s
  {
    if |s| > 0 {
      DetachAbsent(s[1..], id);
    }
  }

  /** Removing a node never adds a banner and never touches another child. */
  lemma {:induction false} DetachBanners(s: seq<Node>, id: nat)
    ensures BannerCount(Detach(s, id)) <= BannerCount(s)
    ensures forall k :: 0 <= k < |Detach(s, id)| ==> Detach(s, id)[k].id != id
  {
    if |s| > 0 {
      var rest := Detach(s[1..], id);
      DetachBanners(s[1..], id);
      if s[0].id != id {
        assert ([s[0]] + rest)[1..] == rest;
      } else {
        assert Detach(s, id) == rest;
      }
    }
  }

  /** showMessage on a form holding at most one banner leaves exactly one:
      the new one, first, with every other child kept in order. On a form
      holding more, it leaves as many as there were. */
  lemma ShowMessageResult(s: seq<Node>, banner: Node)
    requires banner.Banner?
    ensures var t := [banner] + WithoutFirstBanner(s);
      && t[0] == banner
      && BannerCount(t) == (if BannerCount(s) == 0 then 1 else BannerCount(s))
      && Others(t) == Others(s)
      && (BannerCount(s) <= 1 ==> BannerCount(t) == 1)
  {
    var rest := WithoutFirstBanner(s);
    WithoutFirstBannerCount(s);
    WithoutFirstBannerKeepsOthers(s);
    assert ([banner] + rest)[1..] == rest;
  }

  /** The removal timer of a banner that a later showMessage has already
      replaced finds it detached and changes nothing. */
  lemma StaleExpiryIsNoOp(s: seq<Node>, i: nat, banner: Node)
    requires DistinctIds(s) && IsFirstBanner(s, i)
    requires forall k :: 0 <= k < |s| ==> s[k].id != banner.id
    ensures Detach([banner] + WithoutFirstBanner(s), s[i].id) == [banner] + WithoutFirstBanner(s)
  {
    WithoutFirstBannerAt(s, i);
    CutLosesId(s, i, banner);
    DetachAbsent([banner] + (s[..i] + s[i + 1..]), s[i].id);
  }

  /** Once the node at `i` is cut out and a fresh one put in front, no node
      left has the identity of the one cut out. */
  lemma CutLosesId(s: seq<Node>, i: nat, banner: Node)
    requires DistinctIds(s) && i < |s|
    requires forall k :: 0 <= k < |s| ==> s[k].id != banner.id
    ensures var t := [banner] + (s[..i] + s[i + 1..]);
      forall k :: 0 <= k < |t| ==> t[k].id != s[i].id
  {
    var cut := s[..i] + s[i + 1..];
    var t := [banner] + cut;
    forall k | 0 <= k < |t|
      ensures t[k].id != s[i].id
    {
      if k > 0 {
        var m := if k - 1 < i then k - 1 else k;
        assert t[k] == cut[k - 1] == s[m];
      }
    }
  }

  // ----- the fields -----

  /** The entries `new FormData(form)` yields: each named control's name and
      value, in document order. */
  function Entries(fields: seq<Field>): (e: seq<(string, string)>)
    ensures |e| <= |fields|
    ensures forall k :: 0 <= k < |e| ==> e[k].0 != ""
  {
    if |fields| == 0 then []
    else
      var first := if fields[0].name != "" then [(fields[0].name, fields[0].value)] else [];
      first + Entries(fields[1..])
  }

  /** The entries of two runs of controls are the entries of the first run
      followed by those of the second: the order of the controls is kept. */
  lemma {:induction false} EntriesConcat(a: seq<Field>, b: seq<Field>)
    ensures Entries(a + b) == Entries(a) + Entries(b)
  {
    if |a| == 0 {
      assert a + b == b;
    } else {
      assert (a + b)[0] == a[0] && (a + b)[1..] == a[1..] + b;
      EntriesConcat(a[1..], b);
      var first := if a[0].name != "" then [(a[0].name, a[0].value)] else [];
      assert Entries(a + b) == first + (Entries(a[1..]) + Entries(b));
      assert first + (Entries(a[1..]) + Entries(b)) == (first + Entries(a[1..])) + Entries(b);
    }
  }

  /** A single control gives one entry when it is named and none otherwise. */
  lemma EntriesSingle(f: Field)
    ensures Entries([f]) == if f.name != "" then [(f.name, f.value)] else []
  {
    assert [f][1..] == [];
  }

  /** Every named control's entry is there, and every entry is some named
      control's name and value. */
  lemma {:induction false} EntriesMembers(fields: seq<Field>)
    ensures forall j :: 0 <= j < |fields| && fields[j].name != "" ==>
      (fields[j].name, fields[j].value) in Entries(fields)
    ensures forall p :: p in Entries(fields) ==>
      exists j :: 0 <= j < |fields| && fields[j].name == p.0 && fields[j].value == p.1
  {
    if |fields| > 0 {
      var rest := Entries(fields[1..]);
      EntriesMembers(fields[1..]);
      forall p | p in Entries(fields)
        ensures exists j :: 0 <= j < |fields| && fields[j].name == p.0 && fields[j].value == p.1
      {
        if p in rest {
          var j :| 0 <= j < |fields[1..]| && fields[1..][j].name == p.0 && fields[1..][j].value == p.1;
          assert fields[j + 1] == fields[1..][j];
        } else {
          assert fields[0].name == p.0 && fields[0].value == p.1;
        }
      }
      forall j | 0 <= j < |fields| && fields[j].name != ""
        ensures (fields[j].name, fields[j].value) in Entries(fields)
      {
        if j > 0 {
          assert fields[1..][j - 1] == fields[j];
        }
      }
    }
  }

  /** `form.reset()`: every control back to its default value. */
  function ResetFields(fields: seq<Field>): (r: seq<Field>)
    ensures |r| == |fields|
    ensures forall k :: 0 <= k < |fields| ==>
      r[k].name == fields[k].name && r[k].defaultValue == fields[k].defaultValue
      && r[k].value == fields[k].defaultValue
  {
    seq(|fields|, k requires 0 <= k < |fields| => fields[k].(value := fields[k].defaultValue))
  }

  /** The pattern matches the address of the complete example. */
  lemma ExampleAddressMatches()
    ensures FormValidation.EmailRegexTest("ann@example.com")
  {
    var good := "ann@example.com";
    assert good[..3] == "ann" && good[4..11] == "example" && good[12..] == "com";
    assert good[3] == '@' && good[11] == '.';
    assert FormValidation.PlainRun(good[..3]);
    assert FormValidation.PlainRun(good[4..11]);
    assert FormValidation.PlainRun(good[12..]);
  }

  /** A complete submission is accepted. */
  lemma ExampleAccepted()
    ensures FormValidation.ValidateForm(map["name" := "Ann", "email" := "ann@example.com", "message" := "Hi"])
  {
    ExampleAddressMatches();
    var data := map["name" := "Ann", "email" := "ann@example.com", "message" := "Hi"];
    assert data["name"] == "Ann" && data["email"] == "ann@example.com" && data["message"] == "Hi";
    assert FormValidation.Filled(data, "name") && FormValidation.Filled(data, "email")
      && FormValidation.Filled(data, "message");
  }

  /** An empty name is rejected, whatever the address. */
  lemma ExampleEmptyName()
    ensures !FormValidation.ValidateForm(map["name" := "", "email" := "ann@example.com", "message" := "Hi"])
  {
    var data := map["name" := "", "email" := "ann@example.com", "message" := "Hi"];
    assert data["name"] == "";
    assert !FormValidation.Filled(data, "name");
  }

  /** An address without '@' is rejected. */
  lemma ExampleMalformedAddress()
    ensures !FormValidation.ValidateForm(map["name" := "Ann", "email" := "not-an-email", "message" := "Hi"])
  {
    var bad := "not-an-email";
    var data := map["name" := "Ann", "email" := bad, "message" := "Hi"];
    assert data["email"] == bad;
    assert '@' !in bad;
    assert multiset(bad)['@'] == 0;
  }

  // ----- the form -----

  class Form {
    var children: seq<Node>
    var fields: seq<Field>
    /** The identity the next created node receives. */
    var nextId: nat
    /** The identities of every banner showMessage has created: the only
        nodes a removal timer is ever set for. */
    ghost var shown: set<nat>

    ghost predicate Valid()
      reads this
    {
      && (forall k :: 0 <= k < |children| ==> children[k].id < nextId)
      && DistinctIds(children)
      && BannerCount(children) <= 1
    }

    /** A form with `elementCount` children and no banner. */
    constructor (fields: seq<Field>, elementCount: nat)
      ensures Valid()
      ensures this.fields == fields && |children| == elementCount && BannerCount(children) == 0
      ensures children == seq(elementCount, k requires 0 <= k < elementCount => Other(k))
      ensures nextId == elementCount && shown == {}
    {
      var initial := seq(elementCount, k requires 0 <= k < elementCount => Other(k));
      NoBannerCount(initial);
      this.fields := fields;
      children := initial;
      nextId := elementCount;
      shown := {};
    }

    /** `document.querySelector('.form-message')`, within the form. */
    method FindFirstBanner() returns (idx: Option<nat>)
      ensures idx.Some? ==> IsFirstBanner(children, idx.value)
      ensures idx.None? ==> forall j :: 0 <= j < |children| ==> !children[j].Banner?
    {
      var i := 0;
      while i < |children|
        invariant i <= |children|
        invariant forall j :: 0 <= j < i ==> !children[j].Banner?
      {
        if children[i].Banner? {
          return Some(i);
        }
        i := i + 1;
      }
      return None;
    }

    /** showMessage: removes the first banner, creates a new one with the
        given type, and inserts it as the first child. */
    method ShowMessage(text: string, kind: MessageType) returns (banner: Node)
      requires Valid()
      modifies this
      ensures Valid()
      ensures banner == Banner(old(nextId), kind, text)
      ensures forall k :: 0 <= k < |old(children)| ==> old(children)[k].id != banner.id
      ensures children == [banner] + WithoutFirstBanner(old(children))
      ensures fields == old(fields) && nextId == old(nextId) + 1
      ensures shown == old(shown) + {banner.id}
    {
      ShowMessageResult(children, Banner(nextId, kind, text));
      var existing := FindFirstBanner();
      var rest := children;
      if existing.Some? {
        var i := existing.value;
        WithoutFirstBannerAt(children, i);
        CutKeepsIds(children, i, nextId);
        rest := children[..i] + children[i + 1..];
      } else {
        WithoutFirstBannerNone(children);
      }
      banner := Banner(nextId, kind, text);
      PrependFresh(banner, rest, nextId);
      children := [banner] + rest;
      nextId := nextId + 1;
      shown := shown + {banner.id};
    }

    /** The removal timer of a banner showMessage created, firing:
        `messageElement.remove()`. */
    method Expire(id: nat)
      requires Valid() && id in shown
      modifies this
      ensures Valid()
      ensures children == Detach(old(children), id)
      ensures BannerCount(children) <= BannerCount(old(children))
      ensures fields == old(fields) && nextId == old(nextId) && shown == old(shown)
    {
      DetachBanners(children, id);
      DetachSublist(children, id);
      children := Detach(children, id);
    }

    /** The submit listener (default submission suppressed): collect the
        entries, validate, then show the success banner and reset the
        fields, or show the error banner and leave the fields alone. */
    method Submit() returns (ok: bool)
      requires Valid()
      modifies this
      ensures Valid()
      ensures ok == FormValidation.ValidateForm(FormValidation.FormObject(Entries(old(fields))))
      ensures children == [Banner(old(nextId), if ok then Success else Error, if ok then SuccessText else ErrorText)]
                          + WithoutFirstBanner(old(children))
      ensures fields == if ok then ResetFields(old(fields)) else old(fields)
      ensures nextId == old(nextId) + 1 && shown == old(shown) + {old(nextId)}
    {
      var data := FormValidation.CollectFormData(Entries(fields));
      ok := FormValidation.ValidateForm(data);
      if ok {
        var _ := ShowMessage(SuccessText, Success);
        fields := ResetFields(fields);
      } else {
        var _ := ShowMessage(ErrorText, Error);
      }
    }
  }

  /** Cutting one child out keeps the identities distinct and bounded. */
  lemma CutKeepsIds(s: seq<Node>, i: nat, bound: nat)
    requires i < |s| && DistinctIds(s)
    requires forall k :: 0 <= k < |s| ==> s[k].id < bound
    ensures var t := s[..i] + s[i + 1..];
      DistinctIds(t) && forall k :: 0 <= k < |t| ==> t[k].id < bound
  {
    var t := s[..i] + s[i + 1..];
    assert forall k :: 0 <= k < |t| ==> t[k] == s[if k < i then k else k + 1];
  }

  /** A node whose identity is the bound can be put in front. */
  lemma PrependFresh(banner: Node, t: seq<Node>, bound: nat)
    requires DistinctIds(t) && banner.id == bound
    requires forall k :: 0 <= k < |t| ==> t[k].id < bound
    ensures var u := [banner] + t;
      DistinctIds(u) && forall k :: 0 <= k < |u| ==> u[k].id < bound + 1
  {
    var u := [banner] + t;
    assert forall k :: 0 < k < |u| ==> u[k] == t[k - 1];
  }

  lemma {:induction false} NoBannerCount(s: seq<Node>)
    requires forall k :: 0 <= k < |s| ==> !s[k].Banner?
    ensures BannerCount(s) == 0
  {
    if |s| > 0 {
      NoBannerCount(s[1..]);
    }
  }

  /** What `Detach` keeps is a sub-list: every kept node comes from the list
      and keeps its relative order. */
  lemma {:induction false} DetachSublist(s: seq<Node>, id: nat)
    ensures forall k :: 0 <= k < |Detach(s, id)| ==> Detach(s, id)[k] in s
    ensures DistinctIds(s) ==> DistinctIds(Detach(s, id))
  {
    if |s| > 0 {
      var rest := Detach(s[1..], id);
      DetachSublist(s[1..], id);
      if s[0].id != id {
        var t := [s[0]] + rest;
        assert t[1..] == rest;
        if DistinctIds(s) {
          forall i, j | 0 <= i < j < |t|
            ensures t[i].id != t[j].id
          {
            if i == 0 {
              assert t[j] == rest[j - 1];
              assert rest[j - 1] in s[1..];
            } else {
              assert t[i] == rest[i - 1] && t[j] == rest[j - 1];
            }
          }
        }
      }
    }
  }
}
