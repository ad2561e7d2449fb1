/** The publication records shown on the researcher profile page, and the
    seven records the page declares as its fixed data set. */
module PublicationData {

  /** One scholarly article as the page declares it. `year` and `citations`
      are JavaScript numbers; every value the page uses is a small integer. */
  datatype Publication = Publication(
    title: string,
    authors: string,
    journal: string,
    year: int,
    citations: int,
    isStarred: bool
  )

  // The seven records, in the order the page declares them.

  const AttentionIsAllYouNeed := Publication(
    "Attention Is All You Need",
    "Jane Smith, John Doe, Alice Johnson",
    "Advances in Neural Information Processing Systems",
    2023, 54236, true)

  const Bert := Publication(
    "BERT: Pre-training of Deep Bidirectional Transformers for Language Understanding",
    "Jane Smith, Robert Chen, Maria Garcia",
    "NAACL",
    2022, 35918, true)

  const DeepResidualLearning := Publication(
    "Deep Residual Learning for Image Recognition",
    "Jane Smith, James Wilson",
    "IEEE Conference on Computer Vision and Pattern Recognition",
    2021, 28733, false)

  const Gpt3 := Publication(
    "GPT-3: Language Models are Few-Shot Learners",
    "Jane Smith, Alice Johnson, James Wilson",
    "Advances in Neural Information Processing Systems",
    2020, 12437, true)

  const Word2Vec := Publication(
    "Distributed Representations of Words and Phrases and their Compositionality",
    "Jane Smith, John Doe",
    "Advances in Neural Information Processing Systems",
    2019, 19743, false)

  const BatchNormalization := Publication(
    "Batch Normalization: Accelerating Deep Network Training by Reducing Internal Covariate Shift",
    "Jane Smith, Maria Garcia",
    "International Conference on Machine Learning",
    2018, 14352, false)

  const GenerativeAdversarialNetworks := Publication(
    "Generative Adversarial Networks",
    "Jane Smith, Robert Chen",
    "Advances in Neural Information Processing Systems",
    2017, 29651, true)

  /** The page's `publications` array, in declaration order. */
  const Publications: seq<Publication> := [
    AttentionIsAllYouNeed,
    Bert,
    DeepResidualLearning,
    Gpt3,
    Word2Vec,
    BatchNormalization,
    GenerativeAdversarialNetworks
  ]
}
