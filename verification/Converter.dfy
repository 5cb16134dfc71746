/** Converting another system's comments for import. A parent that is not part of the same file becomes
    "no parent", which is what the importer needs to file every answer under its root. */
module Converter {
  import opened Options
  import opened Text
  import opened Entity
  import opened GenIds
  import opened Importer
  import opened ImportedThreads

  /** Fields that are absent or null in the file read as "" or None. */
  datatype Foreign = Foreign(
    id: string, parentId: string, url: string, urlIdRaw: string, urlId: string, comment: string,
    isSpam: bool, approved: Option<bool>, isPinned: bool,
    votesUp: Option<int>, votesDown: Option<int>, votes: Option<ForeignVotes>,
    date: string, name: string, email: string)
  datatype ForeignVotes = ForeignVotes(up: Option<int>, down: Option<int>)

  function Https(url: string): string {
    if "http://" <= url then "https://" + url[|"http://"|..] else url
  }

  function WithSlash(key: string): string {
    if key != "" && key[|key| - 1] != '/' && '?' !in key then key + "/" else key
  }

  /** https, and a slash at the end unless there is a query. */
  function PageKeyOf(url: string): string {
    WithSlash(Https(url))
  }

  function OrZero(n: Option<int>): int {
    match n
    case Some(v) => v
    case None => 0
  }

  function CountOf(direct: Option<int>, nested: Option<int>): string {
    IntString(OrZero(if direct.Some? then direct else nested))
  }

  function IdsOf(rows: seq<Foreign>): set<string> {
    set i | 0 <= i < |rows| :: rows[i].id
  }

  function Converted(c: Foreign, rid: string, siteName: string): Artran {
    Artran(c.id, rid, c.comment, "", "", "false",
           BoolString(c.isSpam && c.approved == Some(false)), BoolString(c.isPinned),
           CountOf(c.votesUp, if c.votes.Some? then c.votes.value.up else None),
           CountOf(c.votesDown, if c.votes.Some? then c.votes.value.down else None),
           c.date, c.date, FirstNonEmpty(c.name, "Anonymous"), c.email,
           PageKeyOf(FirstNonEmpty(c.url, FirstNonEmpty(c.urlIdRaw, c.urlId))), siteName)
  }

  /** The row a comment is converted to: its parent is kept if some comment of the file has that id. */
  ghost predicate ConvertsTo(ids: set<string>, c: Foreign, siteName: string, row: Artran) {
    && row == Converted(c, row.rid, siteName)
    && row.rid == if c.parentId in ids && !Blank(c.parentId) then c.parentId else "0"
  }

  /** The first n comments converted. */
  ghost predicate IsConversionSoFar(ids: set<string>, rows: seq<Foreign>, siteName: string, out: seq<Artran>, n: nat) {
    && |out| == n <= |rows|
    && forall i: nat {:trigger ConvertsTo(ids, rows[i], siteName, out[i])} :: i < n ==>
         ConvertsTo(ids, rows[i], siteName, out[i])
  }

  ghost predicate IsConversion(rows: seq<Foreign>, siteName: string, out: seq<Artran>) {
    IsConversionSoFar(IdsOf(rows), rows, siteName, out, |rows|)
  }

  lemma OneMoreConverted(ids: set<string>, rows: seq<Foreign>, siteName: string, out: seq<Artran>, row: Artran)
    requires |out| < |rows| && IsConversionSoFar(ids, rows, siteName, out, |out|)
    requires ConvertsTo(ids, rows[|out|], siteName, row)
    ensures IsConversionSoFar(ids, rows, siteName, out + [row], |out| + 1)
  {
    forall i: nat | i < |out| + 1
      ensures ConvertsTo(ids, rows[i], siteName, (out + [row])[i])
    {
      assert i < |out| ==> ConvertsTo(ids, rows[i], siteName, out[i]);
    }
  }

  method CollectIds(rows: seq<Foreign>) returns (ids: set<string>)
    ensures ids == IdsOf(rows)
  {
    ids := {};
    for i := 0 to |rows|
      invariant ids == set h | 0 <= h < i :: rows[h].id
    {
      ids := ids + {rows[i].id};
    }
  }

  method ConvertOne(ids: set<string>, c: Foreign, siteName: string) returns (row: Artran)
    ensures ConvertsTo(ids, c, siteName, row)
  {
    var rid := FirstNonEmpty(c.parentId, "0");
    if rid != "0" && rid != "" && rid !in ids {
      rid := "0";
    }
    row := Converted(c, rid, siteName);
  }

  method Convert(rows: seq<Foreign>, siteName: string) returns (out: seq<Artran>)
    ensures IsConversion(rows, siteName, out)
    ensures RidsClosed(out)
  {
    var ids := CollectIds(rows);
    out := [];
    for i := 0 to |rows|
      invariant IsConversionSoFar(ids, rows, siteName, out, i)
    {
      var row := ConvertOne(ids, rows[i], siteName);
      OneMoreConverted(ids, rows, siteName, out, row);
      out := out + [row];
    }
    KeptParentsAreClosed(rows, siteName, out);
  }

  /** No parent dangles among converted rows. */
  lemma KeptParentsAreClosed(rows: seq<Foreign>, siteName: string, out: seq<Artran>)
    requires IsConversion(rows, siteName, out)
    ensures RidsClosed(out)
  {
    forall g: nat | 0 < g <= |out|
      ensures IsClosed(out, g)
    {
      var c := rows[g - 1];
      assert ConvertsTo(IdsOf(rows), c, siteName, out[g - 1]);
      if c.parentId in IdsOf(rows) {
        var i: nat :| i < |rows| && rows[i].id == c.parentId;
        assert ConvertsTo(IdsOf(rows), rows[i], siteName, out[i]);
        GenIdFinds(out, i);
      }
    }
  }

  lemma HttpsIsNotHttp(url: string)
    ensures !("http://" <= Https(url)) && (Https(url) == "" <==> url == "")
  {
    if "http://" <= url {
      assert Https(url)[4] == 's' && "http://"[4] == ':';
    }
  }

  lemma SlashKeepsScheme(key: string)
    requires !("http://" <= key)
    ensures !("http://" <= WithSlash(key))
  {
    if |key| >= 7 {
      assert (key + "/")[..7] == key[..7];
    } else if |key| == 6 && "http://" <= key + "/" {
      assert key[5] == (key + "/")[5] == "http://"[5];
    }
  }

  /** A page key does not start with http, and ends with a slash unless it has a query; converting it again
      changes nothing, and http and https give the same. */
  lemma PageKeyIsNormal(url: string)
    ensures PageKeyOf(PageKeyOf(url)) == PageKeyOf(url)
    ensures PageKeyOf(url) == "" <==> url == ""
    ensures url != "" ==> var k := PageKeyOf(url); k != "" && ('?' in k || k[|k| - 1] == '/')
    ensures !("http://" <= PageKeyOf(url))
    ensures !("http://" <= url) ==> PageKeyOf(url) in {url, url + "/"}
    ensures PageKeyOf("http://" + url) == PageKeyOf("https://" + url)
  {
    HttpsIsNotHttp(url);
    SlashKeepsScheme(Https(url));
    SchemeIsReplaced(url);
  }

  lemma SchemeIsReplaced(rest: string)
    ensures Https("http://" + rest) == Https("https://" + rest) == "https://" + rest
  {
    assert ("http://" + rest)[|"http://"|..] == rest && ("http://" + rest)[..7] == "http://";
    assert ("https://" + rest)[4] == 's' && "http://"[4] == ':';
  }

  /** What the import makes of a converted row: the comment's text, author, date and counts (from either place
      where they may stand); pending if it was refused as spam. */
  lemma ConvertedContentIsImported(ids: set<string>, c: Foreign, siteName: string, row: Artran, p: Params,
                                   saved: Comment)
    requires ConvertsTo(ids, c, siteName, row) && IsCopied(p, row, saved)
    ensures saved.content == c.comment && saved.ua == "" && saved.ip == ""
    ensures !saved.isCollapsed && saved.isPinned == c.isPinned
    ensures saved.isPending <==> c.isSpam && c.approved == Some(false)
    ensures saved.createdAt == c.date && saved.updatedAt == c.date
    ensures saved.userId == p.accountOf(if c.name == "" then "Anonymous" else c.name, c.email)
    ensures saved.pageKey == p.resolve(TrimSpace(PageKeyOf(
              if c.url != "" then c.url else if c.urlIdRaw != "" then c.urlIdRaw else c.urlId)))
    ensures saved.siteName == TrimSpace(if p.targetSiteName != "" then p.targetSiteName else siteName)
    ensures c.votesUp.Some? && IsInt64(c.votesUp.value) ==> saved.voteUp == c.votesUp.value
    ensures c.votesDown.Some? && IsInt64(c.votesDown.value) ==> saved.voteDown == c.votesDown.value
    ensures c.votesUp.None? && c.votes.Some? && c.votes.value.up.Some? && IsInt64(c.votes.value.up.value) ==>
              saved.voteUp == c.votes.value.up.value
    ensures c.votesDown.None? && c.votes.Some? && c.votes.value.down.Some? && IsInt64(c.votes.value.down.value) ==>
              saved.voteDown == c.votes.value.down.value
    ensures c.votesUp.None? && (c.votes.None? || c.votes.value.up.None?) ==> saved.voteUp == 0
    ensures c.votesDown.None? && (c.votes.None? || c.votes.value.down.None?) ==> saved.voteDown == 0
  {
    CountIsRead(c.votesUp, if c.votes.Some? then c.votes.value.up else None);
    CountIsRead(c.votesDown, if c.votes.Some? then c.votes.value.down else None);
  }

  lemma CountIsRead(direct: Option<int>, nested: Option<int>)
    ensures direct.Some? && IsInt64(direct.value) ==> Atoi(CountOf(direct, nested)) == direct.value
    ensures direct.None? && nested.Some? && IsInt64(nested.value) ==> Atoi(CountOf(direct, nested)) == nested.value
    ensures direct.None? && nested.None? ==> Atoi(CountOf(direct, nested)) == 0
  {
    var n := OrZero(if direct.Some? then direct else nested);
    if IsInt64(n) { AtoiOfIntString(n); }
  }

  /** Importing converted rows, if every row has a page: all are filed under the roots that
      FindCommentRootID finds, if and only if nobody answers a row without a parent while some other row is
      named "0". Rows without an id, cycles and duplicate ids do no harm. */
  lemma ConvertedImportIsIndexed(rows: seq<Foreign>, out: seq<Artran>, siteName: string, db: Tables, p: Params)
    requires IsConversion(rows, siteName, out)
    requires forall i :: 0 <= i < |rows| ==> TrimSpace(out[i].pageKey) != ""
    requires TrimSpace(siteName) != "" && (p.targetSiteName == "" || TrimSpace(p.targetSiteName) != "")
    ensures AllIndexed(AfterImport(db, p, out).comments, db.nextComment, |out|) <==> ZeroIsUnanswered(out)
  {
    forall i: nat | i < |rows|
      ensures !Skipped(p, out[i])
    {
      assert ConvertsTo(IdsOf(rows), rows[i], siteName, out[i]);
    }
    ImportIsIndexed(db, p, out);
    ConvertedAnswersAreSound(rows, siteName, out);
  }

  /** The row that row k answers has a parent, or is itself (the last one) named "0", or none is. */
  predicate AnswersNamed(out: seq<Artran>, k: nat)
    requires k < |out|
  {
    var g, zero := GenId(out, out[k].rid), GenId(out, "0");
    g == 0 || out[g - 1].rid != "0" || zero == 0 || zero == g
  }

  predicate ZeroIsUnanswered(out: seq<Artran>) {
    forall k: nat :: k < |out| ==> AnswersNamed(out, k)
  }

  lemma NoRowNamedZero(out: seq<Artran>)
    requires forall i :: 0 <= i < |out| ==> out[i].id != "0"
    ensures ZeroIsUnanswered(out)
  {
    assert GenId(out, "0") == 0;
  }

  lemma ConvertedAnswersAreSound(rows: seq<Foreign>, siteName: string, out: seq<Artran>)
    requires IsConversion(rows, siteName, out)
    ensures AllAnswersSound(out) <==> ZeroIsUnanswered(out)
  {
    KeptParentsAreClosed(rows, siteName, out);
    forall g: nat | 0 < g <= |out|
      ensures BlankIsZero(out, g)
    {
      assert ConvertsTo(IdsOf(rows), rows[g - 1], siteName, out[g - 1]);
    }
    forall k: nat | k < |out|
      ensures AnswersSound(out, k) <==> AnswersNamed(out, k)
    {
      ConvertedAnswerIsSound(out, k);
    }
  }

  predicate BlankIsZero(out: seq<Artran>, g: nat)
    requires 0 < g <= |out|
  {
    Blank(out[g - 1].rid) ==> out[g - 1].rid == "0"
  }

  lemma ConvertedAnswerIsSound(out: seq<Artran>, k: nat)
    requires RidsClosed(out) && k < |out| && forall g: nat :: 0 < g <= |out| ==> BlankIsZero(out, g)
    ensures AnswersSound(out, k) <==> AnswersNamed(out, k)
  {
    var g, zero := GenId(out, out[k].rid), GenId(out, "0");
    if g != 0 {
      assert BlankIsZero(out, g) && IsClosed(out, g);
      assert zero != 0 ==> BlankIsZero(out, zero);
      if out[g - 1].rid == "0" && zero != 0 && zero != g {
        ZeroBreaks(out, g, zero);
      }
    }
  }

  /** Both rows would have to be the last one named "0". */
  lemma ZeroBreaks(out: seq<Artran>, g: nat, zero: nat)
    requires 0 < g <= |out| && out[g - 1].rid == "0" && zero == GenId(out, "0") && zero != 0 && zero != g
    requires BlankIsZero(out, zero)
    ensures Breaks(out, g)
  {
  }
}
