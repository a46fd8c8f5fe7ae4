/** The decisions a post card encodes: which category label it shows, which
    source badge it carries, where its link goes and whether it opens a new tab. */
module PostCard {
  import opened Options
  import opened Posts

  /** Display names of the category keys. */
  const CategoryNames: map<string, string> :=
    map["all" := "전체", "place" := "플레이스", "blog" := "블로그", "ads" := "광고", "tips" := "마케팅팁"]

  /** The label of a category: its display name when the table has a non-empty one
      (JavaScript's `names[category] || category`), the key itself otherwise. */
  function CategoryLabel(category: string): (name: string)
    ensures category in CategoryNames ==> name == CategoryNames[category]
    ensures category !in CategoryNames ==> name == category
    ensures name != category <==> category in CategoryNames
    ensures name != "" || category == ""
  {
    if category in CategoryNames && CategoryNames[category] != "" then CategoryNames[category] else category
  }

  /** What a card shows. `image` is the thumbnail to draw, `None` for the placeholder. */
  datatype Card = Card(
    href: string,
    opensNewTab: bool,
    badge: Source,
    badgeText: string,
    image: Option<string>,
    categoryName: string,
    title: string,
    excerpt: string)

  function BadgeText(source: Source): string {
    match source
    case Naver => "네이버 블로그"
    case Original => "원블럭"
  }

  /** The card of a post. Only Naver posts open in a new tab, and they are exactly the
      ones badged as Naver posts; an empty thumbnail counts as none, like an absent
      one, and an absent excerpt shows as empty text. */
  function CreateCard(p: Post): (c: Card)
    ensures c.opensNewTab <==> p.source == Naver
    ensures c.opensNewTab <==> c.badge == Naver
    ensures c.badge == p.source && c.badgeText == BadgeText(p.source)
    ensures c.href == p.url && c.title == p.title
    ensures c.categoryName == CategoryLabel(p.category)
    ensures c.image.Some? <==> p.thumbnail.Some? && p.thumbnail.value != ""
    ensures c.image.Some? ==> c.image == p.thumbnail
    ensures c.excerpt == p.excerpt.GetOr("")
  {
    var image := if p.thumbnail.Some? && p.thumbnail.value != "" then p.thumbnail else None;
    Card(p.url, p.source == Naver, if p.source == Naver then Naver else Original,
         BadgeText(p.source), image, CategoryLabel(p.category), p.title, p.excerpt.GetOr(""))
  }
}
