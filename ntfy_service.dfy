/** The notification service: every user topic lives under one base topic,
    and a notification is a message handed to the ntfy publisher. */
module Ntfy {
  import opened LaundryNotify

  /** gotfy.Message, with the three fields the service fills. */
  datatype Message = Message(topic: string, title: string, message: string)

  /** The topic a message is published on: the base topic, a dash, and the
      user's topic. */
  function FullTopic(base: string, topic: string): (r: string)
    ensures |r| == |base| + 1 + |topic|
    ensures r[..|base|] == base && r[|base|] == '-' && r[|base| + 1..] == topic
  {
    base + "-" + topic
  }

  /** The user's part of a full topic under `base`. */
  function TopicOf(base: string, full: string): string
    requires |full| > |base|
  {
    full[|base| + 1..]
  }

  /** The user's topic can be read back from the full topic, so two users
      with different topics never share one. */
  lemma FullTopicRoundTrip(base: string, topic: string, other: string)
    ensures TopicOf(base, FullTopic(base, topic)) == topic
    ensures FullTopic(base, topic) == FullTopic(base, other) ==> topic == other
  {
    assert TopicOf(base, FullTopic(base, other)) == other;
  }

  /** The message LaundryNotifyService.Notify hands to its manager. */
  function Compose(base: string, topic: string, title: string, message: string): (m: Message)
    ensures |m.topic| > |base| && m.topic[..|base|] == base && m.topic[|base|] == '-'
    ensures TopicOf(base, m.topic) == topic
    ensures m.title == title && m.message == message
  {
    FullTopicRoundTrip(base, topic, topic);
    Message(FullTopic(base, topic), title, message)
  }

  /** LaundryNotifyService.Notify: the manager's answer to the composed
      message, passed on unchanged. The manager is the `publish` parameter. */
  function Notify(base: string, publish: Message -> Option<Error>, topic: string, title: string, message: string): (err: Option<Error>)
  {
    publish(Compose(base, topic, title, message))
  }
}
