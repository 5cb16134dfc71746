/** Every request of a history, performed on the database. */
module Server {
  import opened Database
  import opened Importer
  import opened Histories

  /** Performs one request as `Step` says, and so keeps a valid database valid where the request is sound. */
  method Execute(dao: Dao, r: Request)
    requires Valid(dao.View()) && IsSound(dao.View(), r)
    modifies dao
    ensures Step(old(dao.View()), r, dao.View()) && Valid(dao.View())
  {
    match r {
      case CreateComment(c, a, title, now) =>
        var _ := dao.CommentCreate(c, a, title, now);
      case UpdateComment(id, e, now) =>
        var _ := dao.CommentUpdate(id, e, now);
      case CreatePage(key, title, siteName) =>
        var _ := dao.CreatePage(key, title, siteName);
      case DeleteComment(id) =>
        var _ := dao.CommentDelete(id);
      case DeleteUser(userId) =>
        dao.DelUser(userId);
      case DeletePage(id) =>
        if id in dao.pages {
          dao.DelPage(id);
        }
      case UpdatePage(id, key, title, adminOnly) =>
        var _ := dao.PageUpdate(id, key, title, adminOnly);
      case CastVote(b) =>
        var _, _, _, _ := dao.UpdateVote(b);
      case SyncVotes =>
        dao.VoteSync();
      case MergeAccounts(email, userName, isEmail) =>
        var _ := dao.AuthMergeApply(email, userName, isEmail);
      case ImportRows(p, rows) =>
        var _ := ImportArtrans(dao, p, rows);
    }
    StepKeepsValid(old(dao.View()), r, dao.View());
  }
}
