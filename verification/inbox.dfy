/** The inbox screen: the signed-in user's notifications, reading them, and
    the administrator's message composer. */
module Inbox {
  import opened Types
  import opened Seqs
  import App
  import Auth

  /** The user's notifications, in stored order. */
  function MyNotifications(ns: seq<Notification>, me: string): (r: seq<Notification>)
    ensures forall n :: n in r <==> n in ns && n.toUserId == me
    ensures |r| <= |ns|
    ensures Selects(r, ns, (n: Notification) => n.toUserId == me)
  {
    FilterSelects((n: Notification) => n.toUserId == me, ns);
    Filter((n: Notification) => n.toUserId == me, ns)
  }

  /** Only administrators get the compose button. */
  predicate CanCompose(role: UserRole) {
    role == Admin
  }

  /** The users a message can be addressed to: everyone but the sender. */
  function Recipients(users: seq<User>, me: string): (r: seq<User>)
    ensures forall u :: u in r <==> u in users && u.id != me
    ensures Selects(r, users, (u: User) => u.id != me)
  {
    FilterSelects((u: User) => u.id != me, users);
    Filter((u: User) => u.id != me, users)
  }

  /** The first offered recipient: the one the list shows as chosen while
      the held recipient is not among the options. */
  function ShownRecipient(users: seq<User>, me: string): (id: string)
    ensures id == "" || exists u :: u in users && u.id == id && u.id != me
    ensures id == "" <==> |Recipients(users, me)| == 0 || Recipients(users, me)[0].id == ""
  {
    var offered := Recipients(users, me);
    if |offered| > 0 then offered[0].id else ""
  }

  /** The composer: whether its dialog is shown, and what it holds. The
      state lives as long as the inbox screen, across openings. */
  datatype Composer = Composer(shown: bool, recipient: string, title: string, body: string)

  /** The composer as the screen creates it: hidden and empty, holding the
      first user's id as recipient whether or not that user is offered. */
  function InitialComposer(users: seq<User>): (c: Composer)
    ensures !c.shown && c.title == "" && c.body == ""
    ensures |users| > 0 ==> c.recipient == users[0].id
    ensures |users| == 0 ==> c.recipient == ""
  {
    Composer(false, Auth.InitialChoice(users), "", "")
  }

  /** The compose button, offered to administrators only. */
  function Open(c: Composer, role: UserRole): (r: Composer)
    ensures r.shown <==> c.shown || CanCompose(role)
    ensures r.(shown := c.shown) == c
  {
    if CanCompose(role) then c.(shown := true) else c
  }

  /** The close button hides the dialog and keeps what was typed. */
  function Dismiss(c: Composer): (r: Composer)
    ensures !r.shown && r.(shown := c.shown) == c
  {
    c.(shown := false)
  }

  /** Choosing an entry of the recipient list. */
  function Choose(c: Composer, id: string): (r: Composer)
    ensures r.recipient == id && r.(recipient := c.recipient) == c
  {
    c.(recipient := id)
  }

  /** Sending: only with a recipient, a title and a body; the dialog then
      closes and the title and body are cleared, the recipient kept. */
  function Send(st: App.AppState, c: Composer, now: string): (r: (App.AppState, Composer))
    ensures c.recipient != "" && c.title != "" && c.body != "" ==>
      r.0 == App.SendNotification(st, c.recipient, c.title, c.body, now)
      && r.1 == Composer(false, c.recipient, "", "")
    ensures c.recipient == "" || c.title == "" || c.body == "" ==> r == (st, c)
  {
    if c.recipient != "" && c.title != "" && c.body != "" then
      (App.SendNotification(st, c.recipient, c.title, c.body, now), Composer(false, c.recipient, "", ""))
    else (st, c)
  }

  /** A sent message lands first in the recipient's inbox, which grows by
      one, and the other users' inboxes do not change. */
  lemma SentMessageArrives(st: App.AppState, c: Composer, now: string, other: string)
    requires c.recipient != "" && c.title != "" && c.body != "" && other != c.recipient
    ensures var after := Send(st, c, now).0;
      var mine := MyNotifications(after.notifications, c.recipient);
      && |mine| == |MyNotifications(st.notifications, c.recipient)| + 1
      && mine[0].title == c.title && mine[0].description == c.body && mine[0].kind == Message
      && mine[1..] == MyNotifications(st.notifications, c.recipient)
      && MyNotifications(after.notifications, other) == MyNotifications(st.notifications, other)
  {
    var after := Send(st, c, now).0;
    assert after.notifications == [after.notifications[0]] + st.notifications;
  }

  /** Closing the dialog without sending and opening it again shows the old
      title and body. */
  lemma DraftSurvivesDismiss(c: Composer)
    ensures Open(Dismiss(c), Admin) == c.(shown := true)
  {
  }

  /** The composer as the screen builds it sends, when the list is left
      alone, to the first user. When the administrator composing is that
      first user, the message comes back to the administrator, while the
      list shows another user as chosen. */
  lemma InitialRecipientIsSelf(st: App.AppState, me: string, title: string, body: string, now: string)
    requires |st.users| > 0 && st.users[0].id == me && me != ""
    requires |Recipients(st.users, me)| > 0
    requires title != "" && body != ""
    ensures var c := Open(InitialComposer(st.users), Admin).(title := title, body := body);
      && c.recipient == me
      && ShownRecipient(st.users, me) != me
      && Send(st, c, now).0.notifications[0].toUserId == me
  {
  }

  /** The composer as it should be built: the recipient held is the one the
      list shows, so it is never the sender. */
  function CorrectedComposer(users: seq<User>, me: string): (c: Composer)
    ensures !c.shown && c.title == "" && c.body == ""
    ensures c.recipient == "" || c.recipient != me
    ensures c.recipient != "" ==> exists u :: u in users && u.id == c.recipient
  {
    Composer(false, ShownRecipient(users, me), "", "")
  }

  /** With the corrected composer, a message sent without touching the list
      never goes back to the sender. */
  lemma CorrectedNeverToSelf(st: App.AppState, me: string, title: string, body: string, now: string)
    requires title != "" && body != ""
    ensures var c := Open(CorrectedComposer(st.users, me), Admin).(title := title, body := body);
      var after := Send(st, c, now).0;
      && (c.recipient != "" ==> after.notifications[0].toUserId != me)
      && (c.recipient == "" ==> after == st)
  {
  }

  /** Clicking a notification marks it read only while it is unread. */
  function Click(st: App.AppState, n: Notification): (r: App.AppState)
    ensures n.read ==> r == st
    ensures !n.read ==> r == App.MarkAsRead(st, n.id)
  {
    if !n.read then App.MarkAsRead(st, n.id) else st
  }

  /** A click never raises the badge count, and clicking an unread
      notification of the signed-in user lowers it. */
  lemma ClickLowersBadge(st: App.AppState, i: nat)
    requires i < |st.notifications|
    ensures App.UnreadCount(Click(st, st.notifications[i])) <= App.UnreadCount(st)
    ensures !st.notifications[i].read && st.session.Some? && st.notifications[i].toUserId == st.session.value.id ==>
      App.UnreadCount(Click(st, st.notifications[i])) < App.UnreadCount(st)
  {
    App.MarkAsReadLowersUnread(st, st.notifications[i].id);
  }

  predicate EveryRead(ns: seq<Notification>) {
    forall i :: 0 <= i < |ns| ==> ns[i].read
  }

  /** The "all read" banner. */
  predicate AllRead(ns: seq<Notification>, me: string) {
    |MyNotifications(ns, me)| > 0 && EveryRead(MyNotifications(ns, me))
  }

  lemma EveryReadCons(n: Notification, rest: seq<Notification>)
    ensures EveryRead([n] + rest) <==> n.read && EveryRead(rest)
  {
    if n.read && EveryRead(rest) {
      forall i | 0 <= i < |[n] + rest| ensures ([n] + rest)[i].read {
        if i > 0 {
          assert ([n] + rest)[i] == rest[i - 1];
        }
      }
    }
    if EveryRead([n] + rest) {
      assert ([n] + rest)[0] == n;
      forall i | 0 <= i < |rest| ensures rest[i].read {
        assert rest[i] == ([n] + rest)[i + 1];
      }
    }
  }

  lemma {:induction false} NoneUnread(ns: seq<Notification>, me: string)
    ensures EveryRead(MyNotifications(ns, me)) <==> App.UnreadFor(ns, me) == 0
  {
    if |ns| > 0 {
      NoneUnread(ns[1..], me);
      var u := (n: Notification) => n.toUserId == me && !n.read;
      assert App.UnreadFor(ns, me) == |Filter(u, ns)|;
      assert App.UnreadFor(ns[1..], me) == |Filter(u, ns[1..])|;
      if ns[0].toUserId == me {
        assert MyNotifications(ns, me) == [ns[0]] + MyNotifications(ns[1..], me);
        EveryReadCons(ns[0], MyNotifications(ns[1..], me));
      } else {
        assert MyNotifications(ns, me) == MyNotifications(ns[1..], me);
      }
    }
  }

  /** The banner shows exactly when the user has notifications and none of
      them is unread, that is when the unread count is zero. */
  lemma AllReadMeansNoUnread(ns: seq<Notification>, me: string)
    ensures AllRead(ns, me) <==> |MyNotifications(ns, me)| > 0 && App.UnreadFor(ns, me) == 0
  {
    NoneUnread(ns, me);
  }
}
