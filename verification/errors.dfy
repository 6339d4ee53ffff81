/** The business failures the services raise, with the messages they carry. */
module Errors {

  datatype Error =
    | CategoryLimitReached          // IllegalArgumentException
    | CategoryNameExists            // IllegalArgumentException
    | CategoryNotFound              // IllegalArgumentException
    | ItemsExist                    // IllegalArgumentException
    | ItemNameExists(name: string)  // IllegalArgumentException
    | ItemsNotRegistered            // ResponseStatusException(NOT_FOUND)

  /** The exception message (the reason, for a ResponseStatusException). */
  function Message(e: Error): string {
    match e
    case CategoryLimitReached => "登録できるカテゴリの上限に達しています"
    case CategoryNameExists => "カテゴリー名はすでに存在します"
    case CategoryNotFound => "カテゴリーが見つかりません"
    case ItemsExist => "アイテムが存在するため削除できません"
    case ItemNameExists(name) => "アイテム名 '" + name + "' は既に存在します"
    case ItemsNotRegistered => "アイテムが登録されていません"
  }

  /** The first six characters of each message. */
  function Head(e: Error): string {
    match e
    case CategoryLimitReached => "登録できるカ"
    case CategoryNameExists => "カテゴリー名"
    case CategoryNotFound => "カテゴリーが"
    case ItemsExist => "アイテムが存"
    case ItemNameExists(_) => "アイテム名 "
    case ItemsNotRegistered => "アイテムが登"
  }

  lemma MessageHead(e: Error)
    ensures |Message(e)| >= 6 && Message(e)[..6] == Head(e)
  {
    if e.ItemNameExists? {
      assert Message(e) == "アイテム名 '" + e.name + "' は既に存在します";
    }
  }

  /** Distinct failures carry distinct messages, so the message alone tells
      a caller which rule was broken. */
  lemma MessagesDistinct(a: Error, b: Error)
    requires a != b
    ensures Message(a) != Message(b)
  {
    if a.ItemNameExists? && b.ItemNameExists? {
      var ma, mb := Message(a), Message(b);
      assert ma[7..|ma| - 10] == a.name;
      assert mb[7..|mb| - 10] == b.name;
    } else {
      MessageHead(a);
      MessageHead(b);
      assert Head(a) != Head(b);
    }
  }
}
