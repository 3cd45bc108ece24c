/**
 * The semantic rename of canonical headers (src/app.py lines 24-34): an
 * ordered list of substring rules, the first rule that matches a header
 * deciding its new name, and the loop that collects the renames in a
 * dictionary.
 */
module Rename {
  import opened Wrappers
  import opened Text
  import Headers

  /** A header matching any of `keywords` (as a substring) is renamed to `target`. */
  datatype Rule = Rule(keywords: seq<string>, target: string)

  /** The rules in the order the `if`/`elif` chain tries them. */
  const Rules: seq<Rule> := [
    Rule(["song", "title"], "title"),
    Rule(["artist"], "artist"),
    Rule(["stream"], "streams_billions"),
    Rule(["publish", "release"], "release_date")
  ]

  predicate Matches(rule: Rule, header: string)
  {
    exists keyword | keyword in rule.keywords :: Contains(header, keyword)
  }

  /**
   * The target of the first rule that matches `header`, or `None` when no rule
   * matches. A later rule is consulted only when every earlier one fails.
   */
  function FirstMatch(rules: seq<Rule>, header: string): (r: Option<string>)
    ensures r.None? <==> forall i :: 0 <= i < |rules| ==> !Matches(rules[i], header)
    ensures r.Some? ==>
      exists i :: 0 <= i < |rules| && Matches(rules[i], header) && r.value == rules[i].target &&
        forall j :: 0 <= j < i ==> !Matches(rules[j], header)
  {
    if rules == [] then None
    else if Matches(rules[0], header) then Some(rules[0].target)
    else
      var r := FirstMatch(rules[1..], header);
      assert forall i :: 1 <= i < |rules| ==> rules[i] == rules[1..][i - 1];
      r
  }

  /** The name the rename gives `header`, if any rule applies: always one of the four key names. */
  function Target(header: string): (r: Option<string>)
    ensures r.Some? ==> r.value in TargetNames
  {
    assert forall i :: 0 <= i < |Rules| ==> Rules[i].target in TargetNames by {
      forall i | 0 <= i < |Rules|
        ensures Rules[i].target in TargetNames
      {
        assert i == 0 || i == 1 || i == 2 || i == 3;
      }
    }
    FirstMatch(Rules, header)
  }

  /** The names the rules give. */
  const TargetNames: seq<string> := ["title", "artist", "streams_billions", "release_date"]

  /**
   * `header` after `df.rename`: a header some rule matches gets that rule's
   * key name, and a header no rule matches keeps its name.
   */
  function Renamed(header: string): (r: string)
    ensures Target(header).None? ==> r == header
    ensures Target(header).Some? ==> r in TargetNames
  {
    match Target(header)
    case Some(name) => name
    case None => header
  }

  /**
   * The rule order, spelt out: "song" or "title" beats everything, then
   * "artist", then "stream", then "publish" or "release"; a header with none
   * of these keeps its name.
   */
  lemma RuleOrder(header: string)
    ensures (Contains(header, "song") || Contains(header, "title")) ==> Renamed(header) == "title"
    ensures (!(Contains(header, "song") || Contains(header, "title")) && Contains(header, "artist")) ==>
              Renamed(header) == "artist"
    ensures (!(Contains(header, "song") || Contains(header, "title") || Contains(header, "artist"))
             && Contains(header, "stream")) ==>
              Renamed(header) == "streams_billions"
    ensures (!(Contains(header, "song") || Contains(header, "title") || Contains(header, "artist")
               || Contains(header, "stream"))
             && (Contains(header, "publish") || Contains(header, "release"))) ==>
              Renamed(header) == "release_date"
    ensures !(Contains(header, "song") || Contains(header, "title") || Contains(header, "artist")
              || Contains(header, "stream") || Contains(header, "publish") || Contains(header, "release")) ==>
              Target(header) == None && Renamed(header) == header
  {
    TargetIsChain(header);
  }

  /** The rule list and the `if`/`elif` chain of the loop give the same answer. */
  lemma TargetIsChain(header: string)
    ensures Target(header) ==
      if Contains(header, "song") || Contains(header, "title") then Some("title")
      else if Contains(header, "artist") then Some("artist")
      else if Contains(header, "stream") then Some("streams_billions")
      else if Contains(header, "publish") || Contains(header, "release") then Some("release_date")
      else None
  {
    MatchesTwo(Rules[0], "song", "title", header);
    MatchesOne(Rules[1], "artist", header);
    MatchesOne(Rules[2], "stream", header);
    MatchesTwo(Rules[3], "publish", "release", header);
    assert Rules[1..][1..][1..][1..] == [];
  }

  /** A rule with one keyword matches exactly the headers containing it. */
  lemma MatchesOne(rule: Rule, w: string, header: string)
    requires rule.keywords == [w]
    ensures Matches(rule, header) <==> Contains(header, w)
  {
    assert w in rule.keywords;
  }

  /** A rule with two keywords matches exactly the headers containing either. */
  lemma MatchesTwo(rule: Rule, v: string, w: string, header: string)
    requires rule.keywords == [v, w]
    ensures Matches(rule, header) <==> Contains(header, v) || Contains(header, w)
  {
    assert v in rule.keywords && w in rule.keywords;
  }

  /**
   * The loop of src/app.py lines 24-33: `rename_dict` ends up with exactly the
   * headers some rule matches as keys, each mapped to its rule's target. The
   * dictionary is keyed by the header, so a header listed twice writes the
   * same entry twice and no entry overwrites another.
   */
  method BuildRenameDict(columns: seq<string>) returns (renames: map<string, string>)
    ensures forall c :: c in renames <==> c in columns && Target(c).Some?
    ensures forall c :: c in renames ==> Target(c) == Some(renames[c])
  {
    renames := map[];
    for i := 0 to |columns|
      invariant forall c :: c in renames <==> c in columns[..i] && Target(c).Some?
      invariant forall c :: c in renames ==> Target(c) == Some(renames[c])
    {
      var col := columns[i];
      var before := renames;
      TargetIsChain(col);
      if Contains(col, "song") || Contains(col, "title") {
        renames := renames[col := "title"];
      } else if Contains(col, "artist") {
        renames := renames[col := "artist"];
      } else if Contains(col, "stream") {
        renames := renames[col := "streams_billions"];
      } else if Contains(col, "publish") || Contains(col, "release") {
        renames := renames[col := "release_date"];
      }
      assert Target(col).Some? ==> renames == before[col := Target(col).value];
      assert Target(col).None? ==> renames == before;
      RenameStep(columns, i, before, renames);
    }
    assert columns[..|columns|] == columns;
  }

  /** One turn of the loop of `BuildRenameDict` keeps both of its invariants. */
  lemma RenameStep(columns: seq<string>, i: nat, before: map<string, string>, after: map<string, string>)
    requires i < |columns|
    requires forall c :: c in before <==> c in columns[..i] && Target(c).Some?
    requires forall c :: c in before ==> Target(c) == Some(before[c])
    requires after == if Target(columns[i]).Some? then before[columns[i] := Target(columns[i]).value] else before
    ensures forall c :: c in after <==> c in columns[..i + 1] && Target(c).Some?
    ensures forall c :: c in after ==> Target(c) == Some(after[c])
  {
    var col, target := columns[i], Target(columns[i]);
    assert columns[..i + 1] == columns[..i] + [col];
    forall c
      ensures c in after <==> c in columns[..i + 1] && Target(c).Some?
      ensures c in after ==> Target(c) == Some(after[c])
    {
      assert c in columns[..i + 1] <==> c in columns[..i] || c == col;
      if c == col {
        assert c in after <==> target.Some?;
        assert target.Some? ==> after[c] == target.value;
      } else {
        assert c in after <==> c in before;
        assert c in after ==> after[c] == before[c];
      }
    }
  }

  /** `df.rename(columns=renames)`: each header is looked up, and kept when it is not a key. */
  function ApplyRename(columns: seq<string>, renames: map<string, string>): (r: seq<string>)
    ensures |r| == |columns|
    ensures forall i :: 0 <= i < |columns| && columns[i] !in renames ==> r[i] == columns[i]
    ensures forall i :: 0 <= i < |columns| && columns[i] in renames ==> r[i] == renames[columns[i]]
  {
    seq(|columns|, i requires 0 <= i < |columns| => if columns[i] in renames then renames[columns[i]] else columns[i])
  }

  /** Renaming with the dictionary the loop builds gives every header its `Renamed` form. */
  lemma RenameWithBuiltDict(columns: seq<string>, renames: map<string, string>)
    requires forall c :: c in renames <==> c in columns && Target(c).Some?
    requires forall c :: c in renames ==> Target(c) == Some(renames[c])
    ensures forall i :: 0 <= i < |columns| ==> ApplyRename(columns, renames)[i] == Renamed(columns[i])
  {
  }

  /** Every rule's target is canonical, so a renamed canonical header is still canonical. */
  lemma RenamedStaysCanonical(header: string)
    requires Headers.IsCanonical(header)
    ensures Headers.IsCanonical(Renamed(header))
  {
    if Target(header).Some? {
      TargetNamesCanonical();
    }
  }

  /** The four key names are made of `[a-z0-9_]`. */
  lemma TargetNamesCanonical()
    ensures forall n :: n in TargetNames ==> Headers.IsCanonical(n)
  {
    forall n | n in TargetNames
      ensures Headers.IsCanonical(n)
    {
      assert n == "title" || n == "artist" || n == "streams_billions" || n == "release_date";
      forall k | 0 <= k < |n|
        ensures Headers.IsCanonicalChar(n[k])
      {
      }
    }
  }
}
