/**
 * The book catalog the pages read: each book with its declared chapter count
 * and the chapters it actually defines. Ratings are kept in tenths of a star.
 */
module Catalog {
  import opened Wrappers

  datatype Chapter = Chapter(title: string, subtitle: string, content: seq<string>)

  datatype Review = Review(name: string, stars: int, text: string)

  datatype Book = Book(
    id: string,
    title: string,
    author: string,
    totalChapters: int,
    rating: Option<int>,
    description: string,
    chapters: map<int, Chapter>,
    reviews: seq<Review>)

  /** The keys of the `books` object, each the id of the book stored under it. */
  const StarlitId: string := "starlit-guide"
  const BusinessId: string := "business-tactics"
  const SelfMasteryId: string := "self-mastery"
  const AtomicHabitsId: string := "atomic-habits"
  const PsychologyMoneyId: string := "psychology-money"
  const HarryPotterId: string := "harry-potter"

  /** The catalog in the order `Object.values(books)` lists it. */
  function Books(): seq<Book> {
    [StarlitGuide(), BusinessTactics(), SelfMastery(), AtomicHabits(), PsychologyMoney(), HarryPotter()]
  }

  function StarlitGuide(): Book {
    Book(StarlitId, "The Starlit Guide", "A. Sharma", 3, Some(48),
      "A mysterious novel about lighthouses, lost books and ancient symbols.",
      StarlitGuideChapters(),
      [])
  }

  function StarlitGuideChapters(): map<int, Chapter> {
    map[
      1 := Chapter("Chapter 1: The Beginning", "The journey starts", [
        "In the beginning, there was only darkness and the whisper of ancient winds across forgotten lands...",
        "Sarah had always been drawn to mysteries, but nothing could have prepared her for what she would discover in the old lighthouse.",
        "The keeper's warnings echoed in her mind as she climbed the spiral staircase.",
        "At the top of the lighthouse, she found something that would change everything."]),
      2 := Chapter("Chapter 2: Ancient Whispers", "Echoes of the past", [
        "The book found in the lighthouse attic was bound in midnight blue leather...",
        "Symbols shimmered in the candlelight.",
        "Whispers of forgotten languages filled the air.",
        "The keeper warned her about the attic."]),
      3 := Chapter("Chapter 3: The Revelation", "A secret revealed", [
        "The symbols formed a map.",
        "The lighthouse was a guardian of ancient knowledge.",
        "Sarah opened the final page of the mysterious book.",
        "Her destiny awaited."])]
  }


  function BusinessTactics(): Book {
    Book(BusinessId, "Business Tactics", "R. Mehta", 4, Some(46),
      "Practical business strategies for modern teams.",
      BusinessTacticsChapters(),
      [])
  }

  function BusinessTacticsChapters(): map<int, Chapter> {
    map[
      1 := Chapter("Chapter 1: Market Strategies", "Understanding the market", [
        "In today's competitive business environment, understanding market dynamics is crucial...",
        "Successful companies don't just follow trends - they create them."]),
      2 := Chapter("Chapter 2: Leadership Principles", "Effective leadership strategies", [
        "Great leaders inspire their teams to achieve extraordinary results...",
        "Leadership is not about authority, but about influence and vision."]),
      3 := Chapter("Chapter 3: Financial Management", "Managing business finances", [
        "Financial health is the lifeblood of any successful business...",
        "Cash flow management can make or break a company."]),
      4 := Chapter("Chapter 4: Growth Strategies", "Scaling your business", [
        "Sustainable growth requires careful planning and execution...",
        "Understanding your core competencies is key to successful scaling."])]
  }


  function SelfMastery(): Book {
    Book(SelfMasteryId, "Self Mastery", "L. Kaur", 3, Some(47),
      "A guide to personal growth and habit formation.",
      SelfMasteryChapters(),
      [])
  }

  function SelfMasteryChapters(): map<int, Chapter> {
    map[
      1 := Chapter("Chapter 1: Self-Awareness", "Understanding yourself",
        ["The journey to self-mastery begins with self-awareness..."]),
      2 := Chapter("Chapter 2: Emotional Regulation", "Managing your emotions",
        ["Emotional intelligence is the cornerstone of self-mastery..."]),
      3 := Chapter("Chapter 3: Habit Formation", "Building positive habits",
        ["Lasting change comes from consistent small actions..."])]
  }


  function AtomicHabits(): Book {
    Book(AtomicHabitsId, "Atomic Habits", "James Clear", 5, Some(49),
      "Tiny changes, remarkable results.",
      AtomicHabitsChapters(),
      [])
  }

  function AtomicHabitsChapters(): map<int, Chapter> {
    map[
      1 := Chapter("Chapter 1: The Surprising Power of Atomic Habits", "Small habits make a big difference",
        ["Habits are the compound interest of self-improvement..."])]
  }


  function PsychologyMoney(): Book {
    Book(PsychologyMoneyId, "The Psychology of Money", "Morgan Housel", 4, Some(48),
      "Insights into human behavior and money.",
      PsychologyMoneyChapters(),
      [])
  }

  function PsychologyMoneyChapters(): map<int, Chapter> {
    map[1 := Chapter("Intro", "", ["Your personal experiences with money make up..."])]
  }


  function HarryPotter(): Book {
    Book(HarryPotterId, "Harry Potter", "J.K. Rowling", 3, Some(49),
      "The classic magical adventure.",
      HarryPotterChapters(),
      [])
  }

  function HarryPotterChapters(): map<int, Chapter> {
    map[
      1 := Chapter("Chapter 1: The Boy Who Lived", "The beginning of the story",
        ["Mr. and Mrs. Dursley, of number four..."])]
  }


  /** The `books` object: each book stored under its own id. */
  function ById(): map<string, Book> {
    map[
      StarlitId := StarlitGuide(),
      BusinessId := BusinessTactics(),
      SelfMasteryId := SelfMastery(),
      AtomicHabitsId := AtomicHabits(),
      PsychologyMoneyId := PsychologyMoney(),
      HarryPotterId := HarryPotter()]
  }

  /** `books[bookId] || null` for a catalog object `books`. */
  function FindBook(books: map<string, Book>, id: string): (r: Option<Book>)
    ensures r.Some? <==> id in books
    ensures r.Some? ==> r.value == books[id]
  {
    if id in books then Some(books[id]) else None
  }

  /**
   * `atomic-habits` declares five chapters but defines only the first, so
   * its chapters 2 to 5 have nothing to render; `harry-potter` likewise
   * declares three and defines one.
   */
  lemma ChapterGaps()
    ensures AtomicHabits().totalChapters == 5 && AtomicHabits().chapters.Keys == {1}
    ensures HarryPotter().totalChapters == 3 && HarryPotter().chapters.Keys == {1}
  {
  }
}
