/** What renaming a page does to the comments on it. The handler moves every comment with the old page
    key to the new one, on whatever site it is. */
module PageRename {
  import opened Entity
  import opened CommentForest

  function MovedTo(c: Comment, oldKey: string, newKey: string): Comment {
    if c.pageKey == oldKey then c.(pageKey := newKey) else c
  }

  function Rekeyed(comments: CommentTable, oldKey: string, newKey: string): CommentTable {
    map x | x in comments :: MovedTo(comments[x], oldKey, newKey)
  }

  /** Answers stay on the page of what they answer, and no link or root changes. */
  lemma RekeyKeepsForest(comments: CommentTable, oldKey: string, newKey: string)
    requires ValidForest(comments)
    ensures ValidForest(Rekeyed(comments, oldKey, newKey))
  {
    assert LinksOf(Rekeyed(comments, oldKey, newKey)) == LinksOf(comments);
  }

  /** The tables after a page was edited; with its key its comments change theirs. */
  ghost function AfterPageUpdate(db: Tables, id: nat, key: string, title: string, adminOnly: bool): Tables
    requires id in db.pages
  {
    db.(comments := Rekeyed(db.comments, db.pages[id].key, key),
        pages := db.pages[id := db.pages[id].(key := key, title := title, adminOnly := adminOnly)])
  }

  /** Editing a page changes its key, title and flag, and the keys of all comments that had its old key; the
      rest of these rows, and all other rows, are as they were. */
  lemma PageEditChanges(db: Tables, id: nat, key: string, title: string, adminOnly: bool)
    requires id in db.pages
    ensures var db' := AfterPageUpdate(db, id, key, title, adminOnly);
            && db'.pages.Keys == db.pages.Keys && db'.comments.Keys == db.comments.Keys
            && (forall p :: p in db.pages && p != id ==> db'.pages[p] == db.pages[p])
            && db'.pages[id].key == key && db'.pages[id].title == title && db'.pages[id].adminOnly == adminOnly
            && db'.pages[id].siteName == db.pages[id].siteName && db'.pages[id].pv == db.pages[id].pv
            && db'.pages[id].voteUp == db.pages[id].voteUp && db'.pages[id].voteDown == db.pages[id].voteDown
            && (forall x :: x in db.comments ==>
                  if db.comments[x].pageKey == db.pages[id].key then db'.comments[x] == db.comments[x].(pageKey := key)
                  else db'.comments[x] == db.comments[x])
            && db'.users == db.users && db'.votes == db.votes && db'.notifies == db.notifies
  {
  }

  /** The page with this key exists on this site. */
  ghost predicate HasPage(pages: map<nat, Page>, key: string, site: string) {
    exists id :: id in pages && pages[id].key == key && pages[id].siteName == site
  }

  /** A comment that had a page still has one after page id was renamed, unless it was on a page of the
      same key on another site, and that site has no page under the new key. */
  lemma PageAfterRename(pages: map<nat, Page>, id: nat, newKey: string, c: Comment)
    requires id in pages && newKey != pages[id].key && HasPage(pages, c.pageKey, c.siteName)
    ensures var c' := MovedTo(c, pages[id].key, newKey);
            HasPage(pages[id := pages[id].(key := newKey)], c'.pageKey, c'.siteName) <==>
            c.pageKey != pages[id].key || c.siteName == pages[id].siteName || HasPage(pages, newKey, c.siteName)
  {
    var pages', c' := pages[id := pages[id].(key := newKey)], MovedTo(c, pages[id].key, newKey);
    if c.pageKey != pages[id].key {
      var j :| j in pages && pages[j].key == c.pageKey && pages[j].siteName == c.siteName;
      assert j in pages' && pages'[j] == pages[j];
    } else if c.siteName == pages[id].siteName {
      assert id in pages' && pages'[id].key == c'.pageKey;
    } else {
      if HasPage(pages, newKey, c.siteName) {
        var j :| j in pages && pages[j].key == newKey && pages[j].siteName == c.siteName;
        assert j in pages' && pages'[j] == pages[j];
      }
      if HasPage(pages', c'.pageKey, c'.siteName) {
        var j :| j in pages' && pages'[j].key == newKey && pages'[j].siteName == c.siteName;
        assert j in pages && pages[j] == pages'[j];
      }
    }
  }

  /** Two sites with a page "k"; one of them is renamed. */
  lemma OtherSiteLosesPage(first: Page, second: Page, c: Comment)
    requires first.key == second.key == c.pageKey == "k" && first.siteName == "a"
    requires second.siteName == c.siteName == "b"
    ensures var pages := map[1 := first, 2 := second];
            && HasPage(pages, c.pageKey, c.siteName)
            && !HasPage(pages[1 := first.(key := "n")], "n", "b") && MovedTo(c, "k", "n").pageKey == "n"
  {
    var pages := map[1 := first, 2 := second];
    assert 2 in pages && pages[2].key == c.pageKey && pages[2].siteName == c.siteName;
    PageAfterRename(pages, 1, "n", c);
  }
}
